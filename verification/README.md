# Verified models of a BBS bundle

This project models the algorithmic parts of the repository in Dafny and proves
what they are for:

- **dbz and the news history** (`innbbsd/dbz.c`, `his.c`, `dbztool.c`): a hash
  index over an append-only text file, with runs of linear probing, an endless
  chain of overflow tables, biased and tagged slots, an in-core first table, and
  stores that resume where a failed fetch stopped. The class `Dbz.Database`
  carries the abstract list of stored pairs; every method keeps the table a
  representation of it, and a fetch answers as the list would. On top,
  `History.HistoryFile` keeps the index and the lines of the history in step,
  also through maintenance.
- **ZMODEM** (`rzsz/zm.c`, `crctab.c`, `lsz.c`): link escape encoding, both frame
  checks, data subpackets, three kinds of headers, and the file sender with
  whatever the receiver answers. The sender's and the receiver's methods are
  proved against one set of functions on byte sequences; the theorems connect
  these functions, through any noise on the line.
- **The CRC compensation detector** (`smth_sshbbsd/deattack.c`) and the
  **wildcard matcher** (`innbbsd/wildmat.c`), each against its declarative
  meaning.
- **Low-level code** (`smth_sshbbsd/memmove.c`, `idea.c`, `blowfish.c`):
  overlapping copies by words, multiplication modulo 65537, the rotating key
  schedule, and the chaining modes.
- **The login-failure watcher** (`local_utl/bbslogd.c`): a linked queue, a count
  table and a ban list.

Where the code does less than its comments or callers suggest, the model keeps
the code, gives a concrete case, and proves exactly when the promise holds:

- keys stored without a final NUL: `DbzMistake.BareKeyCanBeMistaken`,
  `DbzMistake.MistakenFetch`, and `DbzLimits.AlwaysRightIffUnshadowed`,
  `DbzLimits.BareKeysAreRightIff`, `HistoryText.IndexIsRightIff`,
  `HistoryCopy.OnePathIsKeptIff`, `HistoryCopy.CopyIsKeptIff`;
- the hash of dbz, which its comment calls a CRC: `DbzMistake.TableIsMirrored`;
- tags without a place for their marker: `DbzFresh.TopMaskCorrupts`, and
  `DbzSlots.TaggingWorksIffDisjoint`, `DbzFresh.FreshTagsWorkIff`;
- over-long message-IDs: `History.OverlongIsStoredTwice`, and
  `History.HistoryFile.StoreDB`;
- escape settings that do not fit: `ZmodemTransfer.OneByteIsLost`, and
  `ZmodemTransfer.SettingsThatFit`;
- files of 4 GB and more: `ZmodemFile.LargeFileEndsAtZero`, and
  `ZmodemLog.EofMeansWhole`;
- subpackets without data, which cannot be sent with the 16-bit check, but are
  asked for: `ZmodemFile.EmptyFileMakesEmptyCall`, and
  `ZmodemFile.UndisturbedRun`;
- CANs behind a padding character: `ZmodemHunt.FiveAreTooFew`, and
  `ZmodemHunt.SixCansBehindPadding`;
- short packets under a CRC other than the program's own:
  `DeattackShort.StopCanMatter`, and `DeattackShort.StopMattersIff`; with the
  program's own it cannot happen (`DeattackShort.ShortIsNeverSuspicious`);
- failures that have left the window: `LoginWindow.OldFailuresCount`, and
  `LoginWindow.DecisionIsWindowIff`.

Machine words are bit-vectors where bits matter (slots, checks, cipher words) and
explicit moduli elsewhere. A C `&` with a power of two minus one is written as a
remainder. Files are sequences, and reads and writes succeed. The clock, the block
lengths that `calc_blklen` picks, the receiver's answers, the limits per site and
the cipher under CFB are parameters; `ssh_crc32` is one in `Deattack`, and itself
in `DeattackShort`.

Files: `Dbz*.dfy` and `History*.dfy` build up in the order Probe, Slots, Offsets,
Hash, Index, Fresh, Keys, Lookup, Tables, (class) Dbz, KeysTheory, Limits,
Mistake, then Text, Dates, Kept, Copy, History. `Zmodem*.dfy` go Crc, Line, Data, Transfer,
Header, Hunt, Sender, Receiver, Log, File, Delivery, and Escapes and Known on what
goes over the line; `Wildmat` is followed by `WildmatPatterns`. `WordBlocks`, `BlockModes` and
`BlockCalls` serve both ciphers, `Primes` serves table sizes, probing and IDEA,
`ByteDigits` serves offsets and headers.

## Model

| member | source | states |
|---|---|---|
| Dbz.Database.Fetch | innbbsd/dbz.c:957-1029 | a walk along the key's path in the present table ends with the answer; with a consistent, only-appended base file, a fetch that fails means the key was never stored, a hit is the key's first offset or that of a pair stored before it that reads like it, and without such a pair the answer is the first offset stored under the key or nothing |
| Dbz.Database.Walk | innbbsd/dbz.c:990-1010 | the loop of fetch stops at the first candidate whose text matches, at a vacant slot, or where the base file is too short, and has passed over everything before |
| Dbz.Database.Search | innbbsd/dbz.c:1456-1535 | search goes on to the next slot of the probe sequence that is vacant or whose tag fits, skipping only occupied ones, and terminates on every finite table |
| Dbz.Database.Start | innbbsd/dbz.c:1428-1450 | a search begins before the first probe, or, resumed for a key of the same hash, exactly at the vacant slot where the failed fetch stopped |
| Dbz.Database.FindVacancy | innbbsd/dbz.c:1121-1131 | store's loop stops at the first vacant slot of the whole probe sequence, resumed or not |
| Dbz.Database.Store | innbbsd/dbz.c:1091-1136 | store appends exactly one pair to the list of stored pairs, or refuses long keys and values that carry the tag marker; the pair goes to the first vacant slot of its path in the table before the call, and `used` grows by one |
| Dbz.Database.Set | innbbsd/dbz.c:1557-1614 | writing the encoded value into that slot keeps the table a representation of the list |
| Dbz.Database.DbzFetch | innbbsd/dbz.c:924-947 | fetch on the mapped, truncated key |
| Dbz.Database.DbzStore | innbbsd/dbz.c:1063-1085 | store on the mapped key; keys of 255 characters and more are refused |
| Dbz.Database.Sync | innbbsd/dbz.c:875-900 | after a sync, file and in-core table agree, and no pair is lost |
| Dbz.Reopen | innbbsd/dbz.c:666-816 | closing and reopening, with or without an in-core table on either side, keeps all pairs |
| Dbz.Create | innbbsd/dbz.c:390-492 | a fresh database stores nothing, for every configuration whose tag bits leave room for the marker |
| DbzFresh.Configure | innbbsd/dbz.c:402-457 | which sizes and case maps dbzfresh refuses, the table size, case map, shifted masks and shift it derives, with a mask of any signed value, and exactly when these leave room for the marker |
| DbzFresh.Normalize | innbbsd/dbz.c:447-456 | the loop ends for every mask with a bit in its low half, at an odd mask that shifts back to it |
| DbzFresh.FreshTagsWorkIff | innbbsd/dbz.c:441-457 | the masks of a fresh database are apart if and only if the mask asked for has a clear bit above its lowest set one |
| DbzFresh.TopMaskCorrupts | innbbsd/dbz.c:455 | a mask up to the top bit gets no marker, and offset 0 comes back as another |
| DbzFresh.CaseIsKept | innbbsd/dbz.c:419-438 | which letters are case maps; what is stored for one stands for itself |
| DbzFresh.TagsTellApart | innbbsd/dbz.c:149-154 | with the default masks a search passes by exactly what was stored under a quotient that differs in the low seven bits |
| DbzFresh.TagOfQuotient | innbbsd/dbz.c:1440-1450 | the tag of a hash code is made of its quotient by the table size |
| DbzTables.Tables.Write | innbbsd/dbz.c:1572-1612 | a write reaches the in-core copy, the file, or both, and changes one slot of the view |
| DbzTables.Tables.PutCore | innbbsd/dbz.c:1410-1421 | the file gets the in-core table and keeps its overflow tables |
| DbzProbe.ProbeStep | innbbsd/dbz.c:1464-1490 | the place computed from the current place is the next element of ((h mod tsize) + k) mod tsize + (k / MAXRUN) * tsize |
| DbzProbe.ProbeBeyond | innbbsd/dbz.c:1466-1480 | late enough probes lie beyond everything written, so every walk ends |
| DbzSlots.SlotRoundTrip | innbbsd/dbz.c:121-155 | a tagged and biased value comes back unchanged to its own tag, and to any other tag unchanged or not at all |
| DbzSlots.TaggingWorksIffDisjoint | innbbsd/dbz.c:149-155 | stored values survive for all tags and values if and only if tag bits and marker are disjoint and there is no tagging without a marker (or the marker is all ones, when only 0 can be stored) |
| DbzSlots.ShippedTagsAreDisjoint | innbbsd/dbz.c:149-155 | the shipped masks are such a configuration |
| DbzOffsets.OffsetRoundTrip | innbbsd/dbz.c:119-121 | the position is recovered from the stored offset for every position a long can hold |
| DbzHash.Hash | innbbsd/dbz.c:1729-1740 | the loop computes the hash function on the bytes of the key |
| DbzHash.SevenBitsCount | innbbsd/dbz.c:1729-1740 | only the low seven bits of each character count |
| DbzMistake.TableIsMirrored | innbbsd/dbz.c:1714-1726 | an entry of the table is seven steps of the 31-bit register on the mirrored index |
| DbzMistake.KeyHashes | innbbsd/dbz.c:1705-1740 | the hash codes of two keys, as numbers |
| DbzIndex.StoreRepresents | innbbsd/dbz.c:1127-1135 | storing at the first vacancy keeps the invariant: every slot before an entry on its path belongs to an entry stored earlier |
| DbzLookup.PathIsOccupied | innbbsd/dbz.c:1127-1135 | up to its own place, a stored key's path is occupied by pairs stored no later than it |
| DbzLookup.WalkStopsInTime | innbbsd/dbz.c:1001-1008 | the early exit on a short base file never loses a stored key |
| DbzLookup.MissIsRight | innbbsd/dbz.c:1001-1027 | a walk that ends in a vacancy or a short read means that the key is not in the list |
| DbzLookup.HitIsRight | innbbsd/dbz.c:1010-1022 | a match is the first pair of the key, or a pair stored under another key before it that reads like it; without such a pair it is the first |
| DbzLookup.OnePathMiss | innbbsd/dbz.c:1001-1027 | where all keys share one path, a fetch fails only if no pair reads like the key |
| DbzKeys.MatchesKept | innbbsd/dbz.c:985-1022 | appending to the base file changes no earlier match |
| DbzKeysTheory.DomainIsMapped | innbbsd/dbz.c:1833-1920 | the default case map lowers the domain of a message-ID only, and all of postmaster's address |
| DbzKeysTheory.SameUnderMap | innbbsd/dbz.c:1833-1920 | under '=' the keys that differ in case are the same, and no others; '0' maps nothing |
| DbzKeysTheory.LowerLetters | innbbsd/dbz.c:1833-1920 | only A to Z have another lower case |
| DbzKeysTheory.NulKeysAreUnshadowed | innbbsd/dbz.c:985-996 | keys passed with their NUL are never confused, under every case mapping |
| DbzKeysTheory.BareKeysAreUnshadowed | innbbsd/dbz.c:985-996 | a key without NUL is shadowed by another if and only if a proper extension of it was stored before its first pair |
| DbzKeysTheory.BareKeyMatchesExtensions | innbbsd/dbz.c:985-996 | a key without NUL matches the text of exactly the stored keys it is a prefix of |
| DbzKeysTheory.LongKeyMatchesNothing | innbbsd/dbz.c:933-940 | a key too long to be stored is never found |
| DbzLimits.AlwaysRightIffUnshadowed | innbbsd/dbz.c:985-1022 | in every table that holds the list, of every size from 1 up, every fetch answers as the list does, if and only if no pair stored before the key's first one reads like it at another offset |
| DbzLimits.BareKeysAreRightIff | innbbsd/dbz.c:985-1022 | for keys without NUL: if and only if no proper extension was stored before the key's first pair |
| DbzMistake.BareKeyCanBeMistaken | innbbsd/his.c:39-47 | in a table of 150001 slots without tags that holds one pair, for "<1@a.baebo>", every fetch of "<1@a.b" answers with that pair |
| DbzMistake.MistakenFetch | innbbsd/dbz.c:957-1136 | creating that database, storing the one key and fetching the other finds it |
| DbzSize.DbzSize | innbbsd/dbz.c:498-516 | for two entries or more: the least prime n above 37 with 3 * contents <= 2 * n + 1; 1 for one entry |
| DbzSize.IsPrimeAbove37 | innbbsd/dbz.c:524-551 | yes for 1, and above 1 exactly for the primes above 37, although only odd numbers below twice the halved root are tried |
| Primes.PrimeAbove | innbbsd/dbz.c:506-514 | there is a prime above every number, so the search for a size ends |
| History.HistoryFile.FilesFor | innbbsd/his.c:296-353 | nothing only if no line has the key; otherwise an answer that, behind a key that starts with this one and a tab, makes up a line of the file, and the first line with the key itself if no extension of it comes before |
| History.HistoryFile.Write | innbbsd/his.c:446-482 | one line more, and it is indexed exactly if its key fits |
| History.HistoryFile.StoreDB | innbbsd/dbztool.c:56-67 | a known message changes nothing, a new one adds its line unless the index finds an extension for it; a second line for a key comes about exactly when the key is too long for the index and present already, whatever else is in the file |
| History.WriteThenFind | innbbsd/his.c:296-482 | what is written under a new key is found: the date in decimal, a tab, and the paths |
| History.StoreThenFind | innbbsd/dbztool.c:56-67 | the same for a message stored by storeDB |
| History.OverlongIsStoredTwice | innbbsd/dbztool.c:56-67 | a message-ID of 255 characters, stored twice, gets two equal lines |
| History.HistoryFile.MyWrite | innbbsd/his.c:402-440 | for all keys: the line is added, or a line that starts with its key is there; it is never added if its key is there and fits the index, and always if no extension comes before |
| History.HistoryFile.Maint | innbbsd/his.c:116-176 | if the first line is due, the file becomes a copy of its recent lines as the index allows, exactly the lines to keep if extensions follow their keys, and exactly the copy without misses where all keys share one path; the new index lists it; otherwise nothing changes |
| HistoryCopy.CopyIsKeptIff | innbbsd/his.c:143-164 | whatever the index answers where it may err, the copy is exactly the lines to keep, if and only if among recent lines no extension of a key comes before the key |
| HistoryCopy.OnePathIsKeptIff | innbbsd/his.c:143-164 | where all keys share one path, which maintenance then copies as this function does, the copy is the lines to keep if and only if no extension of a key comes before the key |
| HistoryCopy.CopyIsDistinct | innbbsd/his.c:143-164 | every copy has each key once, when the keys fit the index |
| HistoryCopy.CopyCovers | innbbsd/his.c:143-164 | no recent line is left out unless a line of the copy starts with its key |
| HistoryCopy.CopyIsRecent | innbbsd/his.c:157-158 | every line of a copy is a recent line of the file |
| HistoryKept.KeptKeys | innbbsd/his.c:130-164 | the key of a line is found after maintenance if and only if some line with it is recent |
| HistoryKept.KeptAreDistinct | innbbsd/his.c:130-164 | maintenance keeps one line per key |
| HistoryKept.FirstLineIsDropped | innbbsd/his.c:130-140 | the line that makes maintenance due is itself too old to be kept, so not reading it again loses nothing |
| History.HowLongKept | innbbsd/his.c:130-158 | a line is kept for 99600 seconds per day, and the file is due after 172800 per day since its first line |
| HistoryKept.FgetsReadsLine | innbbsd/his.c:143-164 | reading line by line with a buffer of 4096 gets the lines |
| HistoryText.LookupIsFirstLine | innbbsd/his.c:296-345 | the first pair of a key in the index is the start of its first line |
| HistoryText.IndexIsRightIff | innbbsd/his.c:296-345 | every table that lists the file, of every size from 1 up, finds the first line of a key, or rightly nothing, if and only if no extension of the key comes before it |
| HistoryDates.DateRoundTrip | innbbsd/his.c:456-460 | the date printed into a line is the one read back |
| HistoryDates.DigitsAreDecimal | innbbsd/his.c:456-460 | what is printed is the number in base 10, without leading zeros |
| HistoryDates.DecimalOfNegative | innbbsd/his.c:456-460 | and of a negative number, a minus sign and its absolute value |
| History.LineForIsLine | innbbsd/his.c:456-460 | a written line parses into its key and its date |
| ZmodemCrc.TableIsSerial32 | rzsz/crctab.c:92-157 | every entry of cr3tab is eight steps of division by the CRC-32 polynomial |
| ZmodemCrc.TableIsSerial16 | rzsz/crctab.c:6-39 | every entry of crctab is eight steps of division by x^16 + x^12 + x^5 + 1 |
| ZmodemCrc.UpdateIsSteps | rzsz/crctab.c:169 | UPDC32 advances the register as eight one-bit steps would |
| ZmodemCrc.UpdateIsSteps16 | rzsz/crctab.c:53 | updcrc shifts the byte in as eight one-bit steps would |
| ZmodemCrc.Crc32TestIsExact | rzsz/zm.c:622-639 | for every register, the test against 0xDEBB20E3 succeeds exactly on the sender's four check bytes |
| ZmodemCrc.Crc16TestIsExact | rzsz/zm.c:573-583 | for every register, the test against 0 succeeds exactly on the sender's two check bytes |
| ZmodemKnown.CheckValue32 | rzsz/crctab.c:92-169 | CRC-32 of the characters 1 to 9 is CBF43926 |
| ZmodemKnown.CheckValue16 | rzsz/crctab.c:6-53 | CRC-16 of the characters 1 to 9 is 31C3, high byte first |
| ZmodemLine.EmitIsReadable | rzsz/zm.c:895-935 | under settings that fit, every byte leaves in a form the receiver takes for it, after any byte before |
| ZmodemLine.ReadsBare | rzsz/zm.c:180-216 | through noise, a bare character is read as itself and nothing behind it is touched |
| ZmodemLine.ReadsEscaped | rzsz/zm.c:217-249 | through noise, also between the two, an escape and a character are read as one code |
| ZmodemLine.StripInsert | rzsz/zm.c:199-215 | XON and XOFF of either parity make no difference wherever they are inserted |
| ZmodemLine.EncodeAppend | rzsz/zm.c:257-279 | escaping a text in two parts, carrying lastsent over, is escaping it in one |
| ZmodemData.CheckIsExact | rzsz/zm.c:446-484 | for either check, the receiver's test accepts exactly the appended bytes |
| ZmodemData.PacketRoundTrip | rzsz/zm.c:433-655 | every subpacket that can be sent (with the 16-bit check, of one byte or more) arrives with its bytes, length and frame end, through any noise, if and only if the buffer holds it; otherwise the receiver reports an error with length + 1 bytes stored |
| ZmodemKnown.PacketOfA | rzsz/zm.c:433-489 | the bytes of the subpacket of one letter, with either check |
| ZmodemTransfer.StreamRoundTrip | rzsz/zm.c:433-655 | a stream of subpackets that can be sent, of any sizes and frame ends, arrives as the same subpackets in order |
| ZmodemTransfer.SettingsThatFit | rzsz/zm.c:895-935 | all subpackets that can be sent arrive through all noise if and only if a receiver that drops control characters faces a sender that escapes them all |
| ZmodemTransfer.OneByteIsLost | rzsz/zm.c:905-931 | otherwise nothing arrives of a subpacket of one control character |
| ZmodemSender.Sender.Init | rzsz/zm.c:895-935 | the escape table for every setting, whose meaning the next four state |
| ZmodemEscapes.EscapedExactly | rzsz/zm.c:257-279 | which bytes are escaped behind which: ZDLE and flow control always, DLE and a CR behind an '@' without turbo escaping, all control characters but DLE with the setting, and no others |
| ZmodemEscapes.NoCommandIsSent | rzsz/zm.c:919-925 | without turbo escaping, whatever is sent, no CR of either parity goes out directly behind an '@' of either parity |
| ZmodemEscapes.PacketHasNoCommand | rzsz/zm.c:433-489 | nor in a whole subpacket, across its frame end and its check |
| ZmodemEscapes.ControlsSent | rzsz/zm.c:912-931 | without turbo escaping no DLE is on the line, and with the setting no control character but ZDLE |
| ZmodemSender.Sender.Zsendline | rzsz/zm.c:257-279 | one byte escaped by any table, and the new lastsent |
| ZmodemSender.Sender.ZsendlineS | rzsz/zm.c:282-326 | the bulk path sends the same bytes and leaves the same lastsent as zsendline on each byte, for every buffer, state and table |
| ZmodemSender.Sender.Zsdata | rzsz/zm.c:433-455 | a subpacket with 16-bit check, of one byte or more |
| ZmodemSender.Sender.Zsda32 | rzsz/zm.c:458-489 | a subpacket with 32-bit check, empty ones included |
| ZmodemSender.Sender.Zsbhdr | rzsz/zm.c:330-384 | a binary header with either check, behind its nulls, and the lastsent it leaves |
| ZmodemSender.Sender.Zshhdr | rzsz/zm.c:388-426 | a hex header, uncorked by an XON unless it is ZFIN or ZACK |
| ZmodemReceiver.Receiver.Zdlread | rzsz/zm.c:180-250 | one code off the line, past noise |
| ZmodemReceiver.Receiver.ReadEscaped | rzsz/zm.c:217-250 | behind an escape: five CANs in a row end the session, and anything between them starts the count again |
| ZmodemKnown.FiveCansInData | rzsz/zm.c:217-250 | five CANs in a row among data end the session; after four the next character decides |
| ZmodemKnown.RubOutIsRead | rzsz/zm.c:232-235 | DEL of either parity has a code of its own |
| ZmodemReceiver.Receiver.Zrdata | rzsz/zm.c:550-601 | the buffer, the count, the code and what is left of the line, for every line whatsoever |
| ZmodemReceiver.Receiver.Zrdat32 | rzsz/zm.c:604-655 | the same with the 32-bit check |
| ZmodemReceiver.Receiver.CheckTail16 | rzsz/zm.c:567-588 | a frame end among the check bytes starts the check again |
| ZmodemReceiver.Receiver.Zrbhdr | rzsz/zm.c:781-809 | a binary header or the code that came instead |
| ZmodemReceiver.Receiver.Zrbhdr32 | rzsz/zm.c:813-841 | the same with the 32-bit check |
| ZmodemReceiver.Receiver.Noxrd7 | rzsz/zm.c:120-140 | a character without parity, past flow control |
| ZmodemKnown.PassedOver7 | rzsz/zm.c:120-140 | which characters noxrd7 passes over, by parity and setting |
| ZmodemReceiver.Receiver.Zrhhdr | rzsz/zm.c:845-882 | a hex header, with its line ending thrown away only if it is right |
| ZmodemHeader.BinaryRoundTrip | rzsz/zm.c:330-384 | every binary header arrives as sent, through any noise |
| ZmodemHeader.HexRoundTrip | rzsz/zm.c:388-426 | every hex header arrives as sent, its type in seven bits, through parity and flow control |
| ZmodemHeader.PositionRoundTrip | rzsz/zm.c:939-960 | a position survives its header if and only if it fits in 32 bits |
| ZmodemKnown.PositionBytes | rzsz/zm.c:939-948 | a position goes into a header low byte first |
| ZmodemKnown.DataHeader | rzsz/zm.c:330-357 | the bytes of a binary ZDATA header |
| ZmodemKnown.RinitHeader | rzsz/zm.c:388-426 | the bytes of the hex header ZRINIT: **, ZDLE, B0100000023be50, CR, LF, XON |
| ZmodemKnown.HexLineIsTaken | rzsz/zm.c:872-879 | of a hex header as it is sent, CR and LF are thrown away and nothing behind them; if no CR comes, one character is thrown away all the same |
| ZmodemReceiver.Receiver.Zgethdr | rzsz/zm.c:668-777 | for every line: the next header and its position, or the code, with the counts of garbage and of CANs |
| ZmodemHunt.GarbageIsPassedBy | rzsz/zm.c:709-714 | characters other than padding and CAN are passed by, if and only if fewer than the allowance |
| ZmodemHunt.BinaryIsFound | rzsz/zm.c:668-777 | a binary header behind garbage is found, with flow control anywhere in it, and nothing behind it is touched |
| ZmodemHunt.HexIsFound | rzsz/zm.c:668-777 | so is a hex header |
| ZmodemHunt.FiveCansEndIt | rzsz/zm.c:685-706 | five CANs in a row end the session behind any garbage, when no padding is pending |
| ZmodemHunt.SixCansBehindPadding | rzsz/zm.c:709-777 | behind a padding character six do; after five the next character decides |
| ZmodemHunt.FiveAreTooFew | rzsz/zm.c:709-777 | five behind padding, and then silence, is a timeout |
| ZmodemKnown.CanAndFrameEnd | rzsz/zm.c:696-698 | a ZCRCW behind a CAN is an error at once |
| ZmodemLog.DataFollowsHeader | rzsz/lsz.c:1107-1143 | in every faithful log, the subpackets after a ZDATA header join up to the file from its position |
| ZmodemLog.EofMeansWhole | rzsz/lsz.c:1198-1200 | between a ZDATA header inside the file and the ZEOF lies the whole rest of the file, and the ZEOF carries the file length if and only if that fits in 32 bits |
| ZmodemLog.ReceiverHasPrefix | rzsz/lsz.c:1021-1216 | whatever is lost, a receiver that takes data only at its own position (section 8.2 of The ZMODEM Inter Application File Transfer Protocol) always has a beginning of the file |
| ZmodemLog.EofCompletes | rzsz/lsz.c:1198-1200 | such a receiver, told its own position by ZEOF, has the file |
| ZmodemFile.FileSender.GetInSync | rzsz/lsz.c:1326-1380 | which answer ends the wait, what is repositioned, how many ZNAKs are sent |
| ZmodemFile.ResyncTakes | rzsz/lsz.c:1326-1380 | a wait takes the answers up to the one that ends it, which alone decides the result: a ZRPOS with its position, a ZRINIT, a ZSKIP, an acknowledgement that counts, or the end of the session; without one it has timed out |
| ZmodemFile.NaksAreCounted | rzsz/lsz.c:1372-1377 | one ZNAK goes out for each answer that is not understood |
| ZmodemFile.FileSender.Zfilbuf | rzsz/lsz.c:713-730 | a block of the file, and the end seen one block early when it falls on a block boundary |
| ZmodemFile.FileSender.SendBlock | rzsz/lsz.c:1112-1145 | the next piece of the file goes out at the position the receiver will take it for; it is empty only at or behind the end, ZCRCE exactly on the last one, ZCRCW exactly at the resynchronised position, and with a window ZCRCQ exactly when so many bytes have been sent since the last one |
| ZmodemFile.FileSender.Stretch | rzsz/lsz.c:1107-1193 | from the header to the end of the loop, for all answers, the log stays faithful; undisturbed, it is one header and full subpackets to the end |
| ZmodemFile.FileSender.AwaitWindow | rzsz/lsz.c:1176-1192 | waiting for the window sends empty subpackets and ZNAKs, and nothing else, until less than the window is unacknowledged or the receiver complains |
| ZmodemFile.FileSender.SendFileData | rzsz/lsz.c:1021-1216 | for every sequence of answers: the log stays faithful; it is made of rounds, each a header, data and perhaps ZEOFs; each next round begins at the position of the ZRPOS, also one behind ZEOF, or of the acknowledgement that ended the one before; and the result is what the last answer says. If the receiver lets it, the file goes out in one run with its ZEOF |
| ZmodemFile.FileSender.SendFile | rzsz/lsz.c:893-1018 | the same from the offer of the file on: what each answer to the offer brings about, which one starts the rounds, and which ends all |
| ZmodemFile.UndisturbedRun | rzsz/lsz.c:893-1216 | without a window, a run that nothing disturbs sends the file from the position asked for, ends with a ZEOF at the length modulo 2^32, and sends an empty subpacket if and only if that position is not below the length |
| ZmodemFile.LargeFileEndsAtZero | rzsz/lsz.c:1198-1200 | such a run of a file of exactly 4 GB ends with a ZEOF that says 0 |
| ZmodemFile.EmptyFileMakesEmptyCall | rzsz/zm.c:439-443 | such a run of an empty file sends an empty subpacket |
| ZmodemFile.FileSender.AnswerCrc | rzsz/lsz.c:938-989 | the reply to ZCRC is the CRC-32 of as many bytes as were asked for, or of the file, and the file is rewound |
| ZmodemKnown.AskedIsPrefix | rzsz/lsz.c:962-984 | those are the first bytes of the file |
| ZmodemFile.FileSender.AckIsRight | rzsz/lsz.c:1359-1363 | without the flag, an acknowledgement only counts at the position sent |
| ZmodemDelivery.FrameArrives | rzsz/lsz.c:1107-1143 | a ZDATA header and subpackets that can be sent, behind garbage and through any noise, arrive with the position and every subpacket |
| ZmodemDelivery.SendFrame | rzsz/lsz.c:1107-1143 | the calls that send a header and its subpackets put just such a frame on the line |
| ZmodemDelivery.FileArrives | rzsz/lsz.c:1107-1200 | from file to buffer: what a receiver gets of a frame of a faithful log, if it can be sent, through any noise, is the file from the frame's position on, and all the rest of it when ZEOF comes next |
| Deattack.Detector.DetectAttack | smth_sshbbsd/deattack.c:73-147 | long packets: detected if and only if a block that equals the IV or an earlier block satisfies the CRC test; short packets: the same up to exactly the block at which the search stops |
| Deattack.Detector.Probe | smth_sshbbsd/deattack.c:128-140 | every probe loop meets an unused slot or an equal block |
| Deattack.Detector.Enter | smth_sshbbsd/deattack.c:125-145 | one block: detection, or entry in the table, overwriting an equal block |
| Deattack.Detector.SearchPairwise | smth_sshbbsd/deattack.c:100-116 | the search of short packets ends at the first block that equals an IV which does not pass the test |
| Deattack.CheckCrc | smth_sshbbsd/deattack.c:45-66 | the running CRC is that of the marks of all equal blocks |
| Deattack.Detector.Grow | smth_sshbbsd/deattack.c:86-98 | the table outgrows the block count |
| Deattack.EnterKeepsIndexed | smth_sshbbsd/deattack.c:125-145 | overwriting keeps every block seen so far findable on its probe path |
| DeattackShort.StopMattersIff | smth_sshbbsd/deattack.c:100-118 | for any CRC: breaking off changes the answer if and only if behind a block that equals an IV which does not pass, another one repeats and passes, and none does before |
| DeattackShort.StopCanMatter | smth_sshbbsd/deattack.c:100-118 | four blocks for which it does, with the identity as CRC |
| DeattackShort.SshCrcIsSteps | smth_sshbbsd/crc32.c:134-145 | ssh_crc32 on a word is 32 steps of the CRC-32 register |
| DeattackShort.ShortNeverCompensates | smth_sshbbsd/deattack.c:45-66 | with ssh_crc32, no block of a packet of at most seven, and no IV, passes the test: the marks stay linearly independent |
| DeattackShort.ShortIsNeverSuspicious | smth_sshbbsd/deattack.c:100-118 | so breaking off a search of short packets loses nothing |
| DeattackShort.DetectWithSshCrc | smth_sshbbsd/deattack.c:73-147 | with ssh_crc32, packets of every length: detected if and only if a repeated block passes the test |
| Wildmat.DoMatch | innbbsd/wildmat.c:54-114 | TRUE, FALSE and ABORT mean match, no match, and no match of any suffix; FALSE takes no further call, and no verdict takes more calls than one per character left and one more |
| Wildmat.StarLoop | innbbsd/wildmat.c:77-87 | once in the star loop the answer is never FALSE |
| Wildmat.TestClass | innbbsd/wildmat.c:88-106 | a character class with ranges and negation, read in place |
| Wildmat.WildMat | innbbsd/wildmat.c:120-129 | true if and only if the text has the declarative meaning of the pattern, with at most one call more than the text has characters |
| WildmatPatterns.Match | innbbsd/wildmat.c:54-129 | for every pattern whose classes are closed: true if and only if the text can be cut into pieces, one for each token the pattern is written with, that the tokens stand for |
| WildmatPatterns.ParsesAll | innbbsd/wildmat.c:62-107 | reading what is printed from tokens gives back the tokens: stars, single characters, quoted and plain ones, inverted and plain classes with ranges, brackets and dashes at their edges |
| WildmatPatterns.TokensOf | innbbsd/wildmat.c:62-107 | and every pattern whose classes are closed is printed so |
| WildmatPatterns.OneCharacterClass | innbbsd/wildmat.c:88-106 | a class of one character takes that one, and inverted all others |
| Wildmat.NoSuffixStar | innbbsd/wildmat.c:77-87 | a star in front of what matches no suffix matches no suffix either, which is what ABORT rests on |
| Memmove.Move | smth_sshbbsd/memmove.c:60-133 | the destination holds the source's old bytes and all other memory is unchanged, for every length, overlap and alignment |
| Memmove.MoveUp | smth_sshbbsd/memmove.c:82-105 | the same forward, in three phases |
| Memmove.MoveDown | smth_sshbbsd/memmove.c:106-127 | the same backward |
| Memmove.AlignUp | smth_sshbbsd/memmove.c:86-98 | whole words are only copied between aligned addresses |
| Memmove.AlignDown | smth_sshbbsd/memmove.c:111-122 | the same from the ends |
| IdeaArithmetic.MulopIsMultiplication | smth_sshbbsd/idea.c:94-107 | the low 16 bits of mulop are multiplication modulo 65537 with 0 for 65536 |
| IdeaArithmetic.FermatIsPrime | smth_sshbbsd/idea.c:88-107 | 65537 is prime, so that no product is 0 |
| IdeaKeys.SetKey | smth_sshbbsd/idea.c:59-79 | group g of the schedule, also the last half one, is the 128 bits of the key, in the order of its bytes, rotated left by 25 * g |
| IdeaKeys.KeyBitIsByteBit | smth_sshbbsd/getput.h:54-55 | bit n of the eight words is bit n % 8 from the top of byte n / 8 |
| IdeaKeys.NextWord | smth_sshbbsd/idea.c:70-78 | a word spliced from the next two words of the group before carries the key bits that the rotation puts there |
| IdeaCfb.CfbRoundTrip | smth_sshbbsd/idea.c:154-235 | CFB decryption gives back every byte, for every cipher, also of a last block cut short, whatever the padding |
| IdeaCfb.CfbChains | smth_sshbbsd/idea.c:154-235 | the plain text is XORed with the cipher of the block before, in both directions |
| IdeaCfb.CfbCallsRoundTrip | smth_sshbbsd/idea.c:149-235 | however sender and receiver each cut the text into calls, with whole blocks in all but the last, and whatever padding they read, the bytes come back |
| IdeaCfb.EncryptThenDecrypt | smth_sshbbsd/idea.c:154-235 | the two loops on buffers, in place or not, of any length: the text is back, and after whole blocks both ivs are equal |
| BlockModes.SameIv | smth_sshbbsd/idea.c:149-153 | both sides hold the same iv after every multiple of 8 bytes |
| BlockModes.IvAfterPart | smth_sshbbsd/idea.c:149-153 | after any length that is not a multiple of 8 both sides hold the same iv if and only if the receiving side's padding is what the encryption makes of the sender's |
| BlockModes.ChainContinues | smth_sshbbsd/idea.c:149-153 | the links of the chain behind whole blocks are those of a chain that starts from the last link |
| BlockCalls.EncryptedContinues | smth_sshbbsd/idea.c:149-190 | behind whole blocks, every byte is encrypted as in a call that starts with the iv left |
| BlockCalls.DecryptedContinues | smth_sshbbsd/idea.c:192-235 | and decrypted so |
| BlockCalls.CallsEncryptAll | smth_sshbbsd/idea.c:149-190 | any list of calls, all but the last on whole blocks, writes what one call on the whole text writes |
| BlockCalls.CallsDecryptAll | smth_sshbbsd/idea.c:192-235 | the same for decryption |
| BlockCalls.CallsRoundTrip | smth_sshbbsd/blowfish.c:390-439 | for every mode whose step can be undone, whole blocks come back for any two ways of cutting them into calls |
| BlockModes.Encrypt | smth_sshbbsd/idea.c:154-190 | the loop, in place or not, writes exactly the encrypted bytes and the last link of the chain |
| BlockModes.Decrypt | smth_sshbbsd/idea.c:197-235 | the loop, in place or not, writes exactly the decrypted bytes and the last cipher block |
| WordBlocks.GetWordBytes | smth_sshbbsd/getput.h:49-52 | which byte of a text is which byte of a word, in either order |
| Blowfish.DecipherUndoes | smth_sshbbsd/blowfish.c:309-377 | decryption of a block undoes encryption for all S and P |
| Blowfish.Backwards | smth_sshbbsd/blowfish.c:345-377 | the decryption goes through the states of the encryption backwards with the halves exchanged |
| Blowfish.CbcRoundTrip | smth_sshbbsd/blowfish.c:390-439 | CBC decryption gives the text back and leaves the same iv, for all boxes and every text of whole blocks |
| Blowfish.CbcCallsRoundTrip | smth_sshbbsd/blowfish.c:390-439 | CBC does, for all boxes |
| Blowfish.EncryptThenDecrypt | smth_sshbbsd/blowfish.c:390-439 | the two methods on buffers, in place or not: the text is back, and both contexts hold the same iv |
| Blowfish.Context.EncryptBlock | smth_sshbbsd/blowfish.c:309-340 | the sixteen rounds |
| Blowfish.EncipherIsDefined | smth_sshbbsd/blowfish.c:309-340 | the unrolled rounds compute the cipher as it is defined: sixteen rounds of mixing and exchanging, and two more subkeys |
| Blowfish.FOfBytes | smth_sshbbsd/blowfish.c:296-304 | each byte of a word, from the most significant one on, has its box in F |
| Blowfish.CbcChains | smth_sshbbsd/blowfish.c:390-439 | a block of cipher text depends on plain text and the block before exactly through their XOR, and a change in one is a change in the next block of plain text |
| Blowfish.Context.DecryptBlock | smth_sshbbsd/blowfish.c:345-377 | the same rounds backwards |
| Blowfish.Context.CbcEncrypt | smth_sshbbsd/blowfish.c:390-411 | CBC over a buffer, in place or not, and the new iv |
| Blowfish.Context.CbcDecrypt | smth_sshbbsd/blowfish.c:416-439 | its inverse over a buffer, in place or not, and the new iv |
| LoginWatch.Watcher.FilterPasserr | local_utl/bbslogd.c:199-244 | the failure is queued last and counted, and bansiteop is reached exactly when more failures of the address are queued than the limit that site_limit answers at that moment |
| LoginWatch.Watcher.Expireevent | local_utl/bbslogd.c:247-268 | the queue is exactly the failures of all time that are less than 600 seconds old, and the counts are those of the queue |
| LoginWatch.Watcher.Filterlog | local_utl/bbslogd.c:271-288 | one log line keeps all of this, and the ban list is looked after |
| LoginWatch.BanList.Bansiteop | local_utl/bbslogd.c:142-196 | renewing, adding and writing out bans |
| LoginWatch.OpKeepsBans | local_utl/bbslogd.c:142-196 | the file always lists exactly the banned addresses, and a new ban is listed at once |
| LoginWatch.BansExpire | local_utl/bbslogd.c:168-195 | no ban outlives 6100 seconds after it was last renewed |
| LoginWatch.BanLasts | local_utl/bbslogd.c:142-196 | a ban lasts 6000 seconds after it was last renewed, whatever comes in, and is listed as long |
| LoginWatch.ListIsRewritten | local_utl/bbslogd.c:168-195 | when the list is written anew, and what is in it then |
| LoginWatch.CountedDown | local_utl/bbslogd.c:255-262 | uncounting the first failure keeps every count the number of queued failures, with no count left at 0 |
| LoginWindow.RecentAre | local_utl/bbslogd.c:247-268 | the failures in the window are those of less than 600 seconds ago |
| LoginWindow.DecisionIsWindowIff | local_utl/bbslogd.c:214-217 | comparing the queued count decides, at every limit, as a window of 600 seconds would, if and only if no failure of the address has left the window since the queue was last looked through |
| LoginWindow.DecisionIsWindowAtOnce | local_utl/bbslogd.c:214-217 | so it always does when that was in the same second |
| LoginWindow.OldFailuresCount | local_utl/bbslogd.c:214-217 | after hours without a log line, a single new failure can get an address banned |

## Left out

- dbz: the `olddbz` mode, the byte-order map, `dbzagain`, `dbzcancel`, the `.dir` file and its usage counts, `pagpos` seek caching, and changing `dbzwritethrough` or `dbzincore` while a database is open.
- Dbz.Create: no database is modelled on masks for which tagging fails (`DbzFresh.FreshTagsWorkIff`).
- Dbz.Database.Store: the offset -1, which no position in a file has, is excluded; without tags the source stores it as a vacant slot. The check against the largest offset, built in with OVERFLOW, is not modelled.
- DbzKeys.MatchesKept: the shared buffers of `mapcase` are values here, so aliasing of a mapped key with a later one is not modelled.
- History.HistoryFile.Write: lines are below 1024 characters, as FilesFor reads them back; the source writes lines of any length.
- History.HistoryFile.FilesFor: reads of lines longer than one buffer, and `HISslashify`, are not modelled.
- History.HistoryFile.Maint: leftover `.n` files, renaming that fails, the HISdirty counter, and writers that run while the file is rebuilt.
- Integers of type long in the history (dates, lengths) do not overflow.
- ZmodemReceiver.Receiver.Zgethdr: the position of a header that failed its check, which the source computes from stale bytes, and the display of passed-by characters.
- ZmodemSender.Sender.Zsdata: a length of 0 is excluded, because the source's loop would run off the buffer; the file sender does send empty subpackets, and with the 16-bit check that is such a call.
- ZmodemSender.Sender.Zsendline: lastsent is a byte; the source's int may hold more bits, which are never looked at.
- ZmodemFile: the mmap and READCHECK branches, the Attn interrupt by longjmp, how `calc_blklen` chooses lengths, and fseek failing; junkcount stays 0 without READCHECK.
- ZmodemLog.ReceiverHasPrefix: the program's own receiving side, lrz.c, is not part of this model.
- DeattackShort.SshCrcIsSteps: a word's bytes are taken low byte first, as on the machines the program runs on.
- Wildmat.WildMat: patterns with an unfinished class are excluded; the source reads behind the end of such a pattern.
- Memmove: addresses are unbounded; the source looks only at their low bits after truncation to int, and only these are compared here.
- IdeaCfb: `idea_transform` itself; the mode's theorems hold for every function in its place.
- Blowfish: the key set-up and the constants of the boxes.
- BlockModes: the loops of both ciphers share one model with the step as a parameter, and a call whose source and destination overlap without being equal is not expressible.
- LoginWatch.Watcher.Filterlog: the log line is taken as parsed.
- LoginWatch: reading `spec_site`, and allocation failures; an address is taken as parsed.
- Sockets, pages, conversion programs and the XMODEM and YMODEM paths of the bundle.
