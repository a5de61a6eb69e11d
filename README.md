# cldump in Dafny

cldump reads Clarion `.DAT` database files. It has three jobs.

- **Metadata.** It reads the 85-byte file header, the field, key, picture and array descriptors that follow it, and the key type of each key file (`<name>.K01`, ...). It can print all of this.
- **Data.** It prints every record: as plain text, as CSV or as SQL `INSERT` statements. Memo text is taken from the companion `.MEM` file. The schema can be printed as plain text, a CSV header line, or SQL `CREATE TABLE` and `CREATE INDEX` statements.
- **Decryption (`-x`).** It decrypts an encrypted database in place. Every encrypted span of the data file and of the memo file is XORed with a two-byte key taken from the header.

This project models the core of each step and proves what it computes.

- The data file is a `seq<byte>`, or an `array<byte>` where the source changes it in place, together with a cursor. The dumps' stdout and stderr are returned strings; the error exits are error values (see "## Left out").
- Each loop of the source is a `method` with its loop. It is proved equal to a function of its inputs, and the properties the program relies on are proved about those functions as lemmas.
- A read past the end of a file, which the source does not check, is the error `Truncated`.

Modules, one per source file:

| module | file | what it holds |
|---|---|---|
| `Clarion` | common.dfy | the constants and records of cldump.h, little-endian words, C strings, `%d` and `%x` |
| `Utils` | utils.dfy | `clarion_trim`, `clarion_singlespace`, the byte swap of `cl_fread` |
| `Decrypt` | decrypt.dfy | the key modes, the XOR, every section pass and `clarion_decrypt_all` |
| `Meta` | meta.dfy | the header, field, key, picture and array readers, and the key file names |
| `Field` | field.dfy | the LONG, REAL, STRING, BYTE, SHORT and DECIMAL decoders, and the memo chain walk |
| `SqlText` | sqltext.dfy | SQL string escaping, memo sanitising and the SQL memo walk |
| `DumpMeta` | dumpmeta.dfy | the attribute lists, chgtime and chgdate, and the key type text of the header dump |
| `Records` | records.dfy | the record header, the skip rule and the field loop shared by the data dumps |
| `DumpData`, `DataCsv`, `DataSql` | dumpdata.dfy, datacsv.dfy, datasql.dfy | the three record layouts and the SQL table name |
| `Dump` | recordloop.dfy | the record loop over numrecs records |
| `MetaCsv`, `MetaSql` | metacsv.dfy, metasql.dfy | the CSV header line, and the SQL table and index statements |
| `Cldump` | cldump.dfy | the memo file, the options, their normalisation and the dispatch in `main` |

Where the source does not check a call, the model makes it fail explicitly:

- a memo chain that cycles, which the source walks forever: through more than one block in the plain and CSV dumps, and through any number of blocks, a self-pointer included, in the SQL dump;
- a key part whose field number is outside the field table, which the source reads anyway;
- a decryption span outside the mapped file.

Each becomes an error value: `Looping`, `BadFieldRef` and `OutOfRange`.

## Model

| member | source | states |
|---|---|---|
| Clarion.Enc16 | cl_decrypt.c:424-427 | a 16-bit value is written as two bytes; U16Enc16 and Enc16U16 show they are the low byte, then the high byte |
| Clarion.U16Bound | cl_meta.c:42-60 | a 16-bit word read from the file is below 65536 |
| Clarion.U32Bound | cl_meta.c:45-60 | a 32-bit word read from the file is below 2^32 |
| Clarion.U16Enc16 | cl_meta.c:42-60 | reading back a written 16-bit word gives the value |
| Clarion.Enc16U16 | cl_meta.c:42-60 | writing a word that was read reproduces its two bytes |
| Clarion.U32Enc32 | cl_meta.c:45-60 | reading back a written 32-bit word gives the value |
| Clarion.Enc32U32 | cl_meta.c:45-60 | writing a word that was read reproduces its four bytes |
| Clarion.CStr | cl_dump_field.c:142 | the C string of a buffer is its bytes before the first NUL, and the byte after it, when there is one, is that NUL |
| Clarion.Text | cl_dump_field.c:157 | printing with "%s" gives one character per byte |
| Clarion.LowerAll | cl_dump_meta_sql.c:55 | tolower changes each byte on its own |
| Clarion.NatToString | cl_dump_field.c:170 | "%d" prints at least one digit |
| Clarion.NatToStringRoundTrip | cl_dump_field.c:170 | "%d" prints only decimal digits, and they spell the number printed |
| Utils.TrimmedLen | cl_utils.c:73-83 | the cut point of clarion_trim: every byte from it on is 0x20 and the byte before it is not |
| Utils.TrimmedLenUnique | cl_utils.c:73-83 | those three facts determine the cut point, so the trimmed length has a single characterisation |
| Utils.Trim | cl_utils.c:68-84 | clarion_trim writes one NUL just after the last non-space byte of data[0..length), or at index 0 when all are spaces, and changes nothing else |
| Utils.TrimEndIdempotent | cl_utils.c:73-83 | trimming a trimmed buffer changes nothing |
| Utils.TrimEndKeepsIff | cl_utils.c:75 | a buffer is left whole exactly when it is empty or does not end in 0x20 (only 0x20 counts as a space) |
| Utils.TrimTwiceSameString | cl_utils.c:68-84 | running clarion_trim twice on a buffer leaves the same C string as running it once |
| Utils.CStrAt | cl_utils.c:79 | a NUL with none before it ends the C string exactly there |
| Utils.CStrCut | cl_utils.c:79 | a NUL at n cuts the C string at n or earlier |
| Utils.CollapseNotLonger | cl_utils.c:101-110 | singlespacing never lengthens the string |
| Utils.CollapseKeepsNonSpaces | cl_utils.c:101-110 | singlespacing keeps every non-space byte in the same order, hence the same multiset |
| Utils.CollapseIsCollapsed | cl_utils.c:92-114 | after singlespacing, no run of two or more spaces is followed by a non-space |
| Utils.NoLongRun | cl_utils.c:92-114 | in a collapsed string, two spaces in a row are followed only by a space (or the end) |
| Utils.CollapseFromFixed | cl_utils.c:92-114 | a string that is already collapsed is left as it is |
| Utils.CollapseIdempotent | cl_utils.c:92-114 | singlespacing twice is singlespacing once |
| Utils.MoveDown | cl_utils.c:105 | memmove to a lower address leaves exactly the Moved buffer |
| Utils.StrLen | cl_utils.c:105 | strlen: the index of the first NUL from the start, with no NUL before it |
| Utils.CloseGap | cl_utils.c:101-110 | the memmove step puts the unprocessed suffix just after the first pending space and leaves everything beyond it alone |
| Utils.SingleSpace | cl_utils.c:86-115 | clarion_singlespace leaves in the buffer the Collapse of its C string, and bytes after the original NUL are untouched |
| Utils.CollapseStep | cl_utils.c:92-114 | one byte of the walk: a space extends the pending run; any other byte closes the run down to one space and is kept |
| Utils.CollapseInPlace | cl_utils.c:92-114 | the whole walk ends on a NUL with the collapsed string before it |
| Utils.Swapped | cl_utils.c:41-57 | swapping keeps the buffer's length |
| Utils.SwappedTwice | cl_utils.c:41-57 | swapping the same elements twice restores the buffer, since each byte swap is an involution |
| Utils.SwappedAppend | cl_utils.c:41-57 | the swap touches only the first size·count bytes |
| Utils.ReverseChunk | cl_utils.c:45-53 | bswap_16/32/64 reverses the bytes of one element in place and nothing else |
| Utils.SwapElements | cl_utils.c:41-57 | cl_fread reverses each of the count elements when the size is 2, 4 or 8, and leaves the buffer untouched for any other size |
| Utils.SwapGivesLittleEndian16 | cl_utils.c:43-46 | after the swap, a 2-byte element read big-endian gives the little-endian value of the file bytes |
| Utils.SwapGivesLittleEndian32 | cl_utils.c:47-50 | after the swap, a 4-byte element read big-endian gives the little-endian value of the file bytes |
| Decrypt.XorBound | cl_decrypt.c:84-85 | the XOR of two bytes is a byte |
| Decrypt.XorNatTwice | cl_decrypt.c:84-85 | XOR with the same key byte twice gives the original value |
| Decrypt.XorTwice | cl_decrypt.c:84-85 | byte XOR is self-inverse |
| Decrypt.KeyFromFile | cl_decrypt.c:94-119 | the four key modes as file bytes: mode 1 takes numdels>>24 and (numdels>>16)&0xff, mode 2 the same bytes of reserved, mode 3 (reserved>>8)&0xff and reserved&0xff, mode 4 (reserved>>8)&0xff and (reserved>>16)&0xff |
| Decrypt.U32Bytes | cl_decrypt.c:97-117 | the shifts and masks of clarion_get_key select the four little-endian bytes of the 32-bit word |
| Decrypt.Even | cl_decrypt.c:82 | len & ~1: the even byte count below len, nothing for a negative len |
| Decrypt.XorPairsAt | cl_decrypt.c:82-86 | after m passes of the loop, each byte of the first m pairs is XORed with key[0] or key[1] by parity, and every other byte is unchanged |
| Decrypt.XorSpanElems | cl_decrypt.c:77-87 | each byte of a decrypted span, as a formula of the original |
| Decrypt.XorSpanBytes | cl_decrypt.c:77-87 | byte 2i of the span is XORed with key[0] and byte 2i+1 with key[1]; an odd trailing byte and every byte outside the span are unchanged |
| Decrypt.XorSpanTwice | cl_decrypt.c:77-87 | decrypting the same span twice with the same key restores the buffer |
| Decrypt.XorSpan | cl_decrypt.c:77-87 | clarion_decrypt keeps the buffer's length; its bytes are XorSpanBytes |
| Decrypt.XorBytes | cl_decrypt.c:77-87 | the XOR of a whole span: byte k with key byte k mod 2 up to the even length, an odd last byte kept |
| Decrypt.GetKey | cl_decrypt.c:90-119 | the two key bytes of each key location: the high word of numdels, the high, low or middle word of reserved (the middle one byte-swapped), and zero for any other mode |
| Decrypt.XorSpanCommute | cl_decrypt.c:77-87 | spans that do not overlap can be decrypted in either order |
| Decrypt.XorSpanOutside | cl_decrypt.c:77-87 | bytes outside the span keep their values |
| Decrypt.DecryptSpan | cl_decrypt.c:77-87 | clarion_decrypt in place leaves exactly XorSpan of the old buffer |
| Decrypt.HeaderPass | cl_decrypt.c:127 | the header pass is clarion_decrypt(base + 4, 81) and keeps the buffer's length |
| Decrypt.HeaderPassFrame | cl_decrypt.c:127 | the header pass leaves bytes 0-3 (signature and sfatr), byte 84 (81 is odd) and everything after the header unchanged |
| Decrypt.RepeatPass | cl_decrypt.c:169-174 | the field pass fails only by running out of the buffer |
| Decrypt.RepeatEnd | cl_decrypt.c:169-211 | a fixed-size pass that succeeds ends 27·numflds (or 6·numcomps) bytes after its start |
| Decrypt.KeysPass | cl_decrypt.c:197-214 | the key pass fails only by running out of the buffer and never moves the cursor back |
| Decrypt.KeysPassWalk | cl_decrypt.c:197-214 | a key pass that succeeds ends where a walk of 19 bytes plus 6 per component, counting each key's components by its decrypted first byte, ends |
| Decrypt.KeysFromWalk | cl_meta.c:147-211 | the key parser, when it succeeds, ends where the same walk over the count bytes it reads ends |
| Decrypt.KeysRereadEnd | cl_decrypt.c:190-216 | parsing the keys again from the decrypted buffer ends exactly where the key pass ended, which is where the next section is read from |
| Decrypt.OneKeyPass | cl_decrypt.c:199-211 | one key moves the cursor by 19 + 6·numcomps, numcomps being the first byte as decrypted |
| Decrypt.PicsPass | cl_decrypt.c:235-242 | the picture pass fails only by running out of the buffer and never moves the cursor back; which spans it decrypts is stated by PicsHead and PicsDecrypted |
| Decrypt.ArrLoop | cl_decrypt.c:268-279 | the array loop of one field runs until the cursor reaches the data offset |
| Decrypt.ArrsPass | cl_decrypt.c:263-280 | the array section fails only by running out of the buffer |
| Decrypt.DataPass | cl_decrypt.c:313-324 | the record loop never fails and never moves the cursor back; where it stops and which bytes it changes are stated by DataPassEnd and DataPassByte |
| Decrypt.MemoPass | cl_decrypt.c:366-379 | the memo sweep keeps the buffer's length; which bytes it changes is stated by MemoPassByte |
| Decrypt.RepeatBelow | cl_decrypt.c:169-174 | a fixed-size pass touches no byte before its start |
| Decrypt.RepeatCommute | cl_decrypt.c:169-174 | a span before a fixed-size pass can be decrypted before or after it |
| Decrypt.RepeatTwice | cl_decrypt.c:169-174 | the field pass is its own inverse, even when it stops early |
| Decrypt.KeysBelow | cl_decrypt.c:197-214 | the key pass touches no byte before its start |
| Decrypt.PicsBelow | cl_decrypt.c:235-242 | the picture pass touches no byte before its start |
| Decrypt.DataCommute | cl_decrypt.c:313-324 | a span before the data pass can be decrypted before or after it |
| Decrypt.DataTwice | cl_decrypt.c:313-324 | the data pass is its own inverse: running it again with the same key restores the buffer and ends at the same cursor |
| Decrypt.PicsHead | cl_decrypt.c:237-241 | the first picture's length word is kept and its piclen bytes are XORed |
| Decrypt.DecryptedPics | cl_decrypt.c:235-242 | the decrypted pictures keep their lengths and XOR their strings |
| Decrypt.PicsPassEnd | cl_decrypt.c:235-242 | on pictures the parser can read, each step advances by 2 plus the length read before its span is decrypted, so the pass ends where the parser's picture loop ends |
| Decrypt.PicsReread | cl_decrypt.c:235-251 | read again after the pass, every picture keeps its length and its string is its original string XORed as a span of its own |
| Decrypt.PicsDecrypted | cl_decrypt.c:235-251 | the picture pass ends where the parser's picture loop ends, and the re-read after it gives the decrypted pictures |
| Decrypt.Fitting | cl_decrypt.c:313-324 | the number of records the loop decrypts: at most the count, each within the file, and the next one would pass its end |
| Decrypt.DataPassEnd | cl_decrypt.c:313-324 | the data pass stops after the fitting records, at p + reclen · Fitting |
| Decrypt.DataPassByte | cl_decrypt.c:313-324 | after the data pass a byte is XORed exactly when it lies past the 5-byte header of a fitting record and within the even part of the rest (an odd last byte is kept), with the key byte of its place in the record; every other byte is kept |
| Decrypt.MemoPassByte | cl_decrypt.c:366-379 | after the memo sweep a byte is XORed exactly when it lies in the 252 text bytes of a whole block, with the key byte of its place in the text; every other byte is kept |
| Decrypt.MemoCommute | cl_decrypt.c:366-379 | a span before the memo sweep can be decrypted before or after it |
| Decrypt.MemoTwice | cl_decrypt.c:366-379 | the memo sweep is its own inverse |
| Decrypt.DecryptRepeat | cl_decrypt.c:169-174 | the field loop leaves RepeatPass's buffer and cursor |
| Decrypt.DecryptKeys | cl_decrypt.c:197-214 | the key loop leaves KeysPass's buffer and cursor |
| Decrypt.DecryptKey | cl_decrypt.c:199-211 | one key of the loop leaves OneKeyPass's buffer and cursor |
| Decrypt.ArrStep | cl_decrypt.c:270-278 | one descriptor: its 6-byte head decrypted, totdim read from the decrypted head, then 4·totdim bytes |
| Decrypt.ArrStopStep | cl_decrypt.c:270-278 | a descriptor whose parts pass the end of the buffer stops the loop with an error |
| Decrypt.DecryptPic | cl_decrypt.c:237-241 | one picture: piclen is read from the undecrypted prefix at p, the span [p+2, p+2+piclen) is XORed in place, and the cursor moves to p+2+piclen; a span past the buffer changes nothing and fails |
| Decrypt.DecryptPics | cl_decrypt.c:235-242 | the picture loop leaves PicsPass's buffer and cursor |
| Decrypt.DecryptArrLoop | cl_decrypt.c:268-279 | the array loop of one field leaves ArrLoop's buffer and cursor |
| Decrypt.DecryptArr | cl_decrypt.c:270-278 | one iteration moves the cursor forward and leaves the loop's result unchanged |
| Decrypt.DecryptArrs | cl_decrypt.c:263-280 | the array section leaves ArrsPass's buffer and cursor |
| Decrypt.DecryptRecords | cl_decrypt.c:313-324 | the record loop leaves DataPass's buffer and cursor |
| Decrypt.DecryptMemo | cl_decrypt.c:364-379 | the memo loop skips the 6-byte file header and leaves MemoPass's buffer |
| Decrypt.ArrLoopBelow | cl_decrypt.c:268-279 | the array loop touches no byte before its start |
| Decrypt.ArrsBelow | cl_decrypt.c:263-280 | the array section touches no byte before its start |
| Decrypt.DataBelow | cl_decrypt.c:313-324 | the data pass touches no byte before its start |
| Decrypt.ClearedBits | cl_decrypt.c:425 | sfatr & ~(OWNED \| ENCRYPTED) keeps bit 0 and the bits from 3 up |
| Decrypt.ClearedSfatr | cl_decrypt.c:425 | the cleared sfatr has neither OWNED nor ENCRYPTED set and keeps every other bit |
| Decrypt.ClearFlags | cl_decrypt.c:425-427 | the flags write changes only bytes 2-3, which hold the cleared sfatr little-endian |
| Decrypt.SchemaPass | cl_decrypt.c:148-289 | the schema pass keeps the buffer's length |
| Decrypt.KeysStage | cl_decrypt.c:190-226 | the key stage keeps the buffer's length |
| Decrypt.PicsStage | cl_decrypt.c:228-254 | the picture stage keeps the buffer's length |
| Decrypt.ArrsStage | cl_decrypt.c:256-288 | the array stage keeps the buffer's length |
| Decrypt.DataStart | cl_decrypt.c:301-310 | the data pass is refused, with nothing changed, exactly when its start lies past the data offset |
| Decrypt.DatPass | cl_decrypt.c:424-441 | the data-file pass keeps the buffer's length |
| Decrypt.AllPass | cl_decrypt.c:387-454 | clarion_decrypt_all keeps both files' lengths, and the memo file is there after it exactly when it was there before |
| Decrypt.KeyIgnoresFlags | cl_decrypt.c:425-429 | the key does not depend on the flags write that comes before it |
| Decrypt.ArrsStageBelow | cl_decrypt.c:256-288 | the array stage leaves bytes 0-3 alone |
| Decrypt.PicsStageBelow | cl_decrypt.c:228-254 | the picture stage leaves bytes 0-3 alone |
| Decrypt.KeysStageBelow | cl_decrypt.c:190-226 | the key stage leaves bytes 0-3 alone |
| Decrypt.SchemaBelow | cl_decrypt.c:148-289 | the schema pass leaves bytes 0-3 alone |
| Decrypt.DatPassClearsFlags | cl_decrypt.c:424-441 | whatever the outcome, the data file keeps its signature and holds the cleared sfatr, with neither OWNED nor ENCRYPTED set |
| Decrypt.DecryptHeader | cl_decrypt.c:122-146 | clarion_decrypt_header XORs the header and reads it back |
| Decrypt.DecryptSchema | cl_decrypt.c:148-289 | clarion_decrypt_schema leaves SchemaPass's buffer and cursor |
| Decrypt.DecryptData | cl_decrypt.c:291-327 | clarion_decrypt_data leaves DataStart's buffer and cursor |
| Decrypt.WriteFlags | cl_decrypt.c:424-427 | the flags write leaves ClearFlags of the old buffer |
| Decrypt.DecryptAll | cl_decrypt.c:387-454 | clarion_decrypt_all leaves AllPass's data file and result; the memo file is changed only when it could be opened |
| Meta.ParseHeader | cl_meta.c:31-81 | a signature other than 0x3343 is refused before anything else is read; otherwise the header is read when the file holds 85 bytes, and it carries the data-file signature |
| Meta.EncodeHeader | cl_meta.c:42-76 | the header occupies exactly 85 bytes on disk |
| Meta.HeaderCountsRead | cl_meta.c:42-55 | filesig, sfatr, numbkeys, numrecs, numdels and numflds sit at offsets 0, 2, 4, 5, 9 and 13 with widths 2, 2, 1, 4, 4 and 2 |
| Meta.HeaderLayoutRead | cl_meta.c:56-62 | numpics, numarrs, reclen, offset, logeof, logbof and freerec sit at offsets 15-36 in that order |
| Meta.HeaderNamesRead | cl_meta.c:63-70 | recname, memnam, filpre and recpre are 12, 12, 3 and 3 bytes at offsets 37, 49, 61 and 64 |
| Meta.HeaderTailRead | cl_meta.c:71-76 | memolen, memowid, reserved, chgtime, chgdate and reserved2 sit at offsets 67-84 |
| Meta.ParseEncodeHeader | cl_meta.c:31-81 | reading back an encoded header gives the same header |
| Meta.EncodeParsedHeader | cl_meta.c:31-81 | a parsed header is exactly the first 85 bytes of the file: encoding it gives those bytes back |
| Meta.EncodeFieldDesc | cl_meta.c:102-110 | a field descriptor occupies 27 bytes |
| Meta.DecodeEncodeFieldDesc | cl_meta.c:100-113 | reading back an encoded field descriptor gives the same descriptor, with an empty array list |
| Meta.FieldTable | cl_meta.c:84-118 | a zero count reads nothing; otherwise n descriptors of 27 bytes each, descriptor i at pos + 27i, each with no array descriptors (arr = NULL, nbarrs = 0); a table past the end of the file is a short read |
| Meta.ReadFieldDescs | cl_meta.c:84-118 | the field loop gives FieldTable |
| Meta.KeyFileName | cl_meta.c:142-158 | the key file name has the data file name's length |
| Meta.KeyFileNameSpellsIndex | cl_meta.c:142-158 | the key file name keeps the data file name up to its last three characters, then 'K', then two lowercase hex digits spelling i+1 |
| Meta.KeyFileNamesDistinct | cl_meta.c:155-158 | distinct keys get distinct key file names |
| Meta.Subparts | cl_meta.c:188-205 | the sub-parts of a GROUP part exist exactly when every field they name is in the table |
| Meta.CollectSubparts | cl_meta.c:190-204 | a GROUP part gets as many sub-parts as the group field's length; sub-part k names field fldnum+1+k and copies its type, offset and length |
| Meta.PartAt | cl_meta.c:179-210 | the 6-byte part keeps fldtype and fldnum as read; a non-GROUP part has no sub-parts, a GROUP part has its Subparts |
| Meta.PartsFrom | cl_meta.c:177-211 | numcomps parts consume 6 bytes each |
| Meta.PartsFromElements | cl_meta.c:177-211 | part j of a successful parse is the 6-byte part at p + 6j |
| Meta.PartsFromOk | cl_meta.c:177-211 | parts that all parse give a successful parse |
| Meta.KeyAt | cl_meta.c:149-211 | a key takes numcomps from its first byte, holds that many parts and consumes 19 + 6·numcomps bytes; its key type is the type byte of its key file (offset 29), or 0xff when that file does not open |
| Meta.KeysFrom | cl_meta.c:147-212 | the key loop gives one key per count and consumes exactly the bytes of the keys it read |
| Meta.ReadKeyParts | cl_meta.c:177-211 | the component loop gives PartsFrom |
| Meta.ReadKeyDesc | cl_meta.c:149-211 | one pass of the key loop rewrites the last two characters of the key file name in place to spell i+1, gives KeyAt, and prints "Couldn't open key file" (KeyFileNote) after the 19-byte header was read |
| Meta.ReadKeyDescs | cl_meta.c:120-219 | clarion_read_key_desc gives KeysFrom, and its stderr lines are KeyNotesFrom; a zero count reads nothing |
| Meta.ReadKeyLoop | cl_meta.c:147-211 | the for loop over the keys, with the key file name buffer prepared, gives KeysFrom and KeyNotesFrom |
| Meta.ReadNextKey | cl_meta.c:149-211 | one turn of the key loop reads key i, keeps the key file name's stem, and moves the loop's account of keys and stderr lines past it, or gives the parse's error |
| Meta.KeyFileNote | cl_meta.c:160-172 | "Couldn't open key file" is printed exactly when the key file does not open, and then the key type is 0xff |
| Meta.KeyNotesOfParsed | cl_meta.c:147-172 | when the key loop succeeds, its stderr is one KeyFileNote per key, in order |
| Meta.ReadPicDescs | cl_meta.c:221-250 | clarion_read_pic_desc gives PicsFrom |
| Meta.PicsFromShape | cl_meta.c:229-245 | n pictures consume exactly their 2-byte prefixes and strings, each string as long as its prefix says; the only error is a read past the end of the file |
| Meta.PicRoundTrip | cl_meta.c:239-244 | a picture reads back from its length prefix and bytes |
| Meta.ArrDescAt | cl_meta.c:270-281 | an array descriptor takes numdim and totdim from its first two words and holds totdim (maxdim, lendim) pairs |
| Meta.ArrPartsAt | cl_meta.c:278-281 | pair m is the two 16-bit words at p + 4m |
| Meta.ArrChain | cl_meta.c:264-300 | a chain holds at least one descriptor; reaching the data offset exactly ends it; otherwise the next equal (numdim, totdim) words end it and are not consumed, and unequal ones start another descriptor |
| Meta.ChainNext | cl_meta.c:283-300 | each way the look-ahead after a descriptor can end the chain or carry on |
| Meta.ArrsFrom | cl_meta.c:262-300 | only fields with a non-zero arrnum get array descriptors; every other part of every field is unchanged |
| Meta.ArrsFromStops | cl_meta.c:283-288 | when a field's chain reaches the data offset the reader returns: the cursor is the offset and every later field keeps its array list |
| Meta.ReadArrDesc | cl_meta.c:270-281 | one descriptor read as ArrDescAt |
| Meta.ReadArrChain | cl_meta.c:266-300 | the do-while with its realloc-grown list gives ArrChain |
| Meta.ReadArrDescs | cl_meta.c:252-300 | clarion_read_arr_desc gives ArrsFrom |
| Field.ReadInto | cl_dump_field.c:94 | the fread of a field succeeds exactly when its bytes are in the file, and then fills the front of the buffer with them and leaves the rest as it was |
| Field.FieldBytes | cl_dump_field.c:94 | a field of `length` bytes at `pos` is those bytes of the file, or a short read |
| Field.LongValue | cl_dump_field.c:92-100 | a LONG prints the little-endian word unchanged when bit 31 is clear and modulo 2^24 when it is set, so it is never negative |
| Field.LowWord | cl_dump_field.c:96-98 | clearing the top byte leaves the word's low 24 bits, and bit 31 is set exactly when the top byte is 0x80 or more |
| Field.MaskedLong | cl_dump_field.c:97-98 | masking changes only the fourth byte of the buffer |
| Field.MaskedLongValue | cl_dump_field.c:97-100 | the word left in the buffer after masking is the value printed |
| Field.MaskedLongTwice | cl_dump_field.c:97-98 | masking twice is masking once, and prints the same value |
| Field.LongField | cl_dump_field.c:90-102 | a LONG field prints the decimal digits of its masked value, or is a short read |
| Field.DumpLong | cl_dump_field.c:90-102 | clarion_dump_field_long gives LongField and leaves the masked word in the buffer |
| Field.UninitRealExactly | cl_dump_field.c:112-122 | an eight-byte REAL is uninitialised exactly when it holds B0 FF FF FF FF FF EF FF |
| Field.RealField | cl_dump_field.c:105-131 | an uninitialised REAL prints the placeholder (nothing without -p), any other prints the rendered double |
| Field.DumpReal | cl_dump_field.c:105-131 | clarion_dump_field_real gives RealField and leaves the field's bytes in the buffer |
| Field.TrimmedString | cl_dump_field.c:138-140 | the NUL written after the field and the trim leave the field's bytes up to its last non-space byte as the C string |
| Field.TrimmedBufferOfNul | cl_dump_field.c:139-140 | trimming a NUL-terminated copy writes a single NUL just after the last non-space byte |
| Field.CutAtNul | cl_dump_field.c:139-142 | a NUL written at n cuts the C string at n or at an earlier NUL |
| Field.OrPlaceholder | cl_dump_field.c:142-160 | non-empty text is printed, empty text becomes the placeholder |
| Field.StringField | cl_dump_field.c:134-163 | a STRING field prints its C string after trimming trailing spaces, or the placeholder when that is empty |
| Field.StringFieldEmpty | cl_dump_field.c:142-160 | the placeholder is printed exactly when the field starts with a NUL or is all spaces |
| Field.StringFieldNoNul | cl_dump_field.c:138-142 | a field without a NUL prints exactly its bytes minus the trailing spaces |
| Field.ReadTrimmed | cl_dump_field.c:138-140 | the read, the NUL and the trim leave the trimmed field as the C string in the buffer, with a NUL at its trimmed length |
| Field.DumpString | cl_dump_field.c:134-163 | clarion_dump_field_string gives StringField |
| Field.ByteField | cl_dump_field.c:166-172 | a BYTE field prints its first byte in decimal |
| Field.ShortField | cl_dump_field.c:175-183 | a SHORT field prints its little-endian 16-bit word in decimal |
| Field.DumpByte | cl_dump_field.c:166-172 | clarion_dump_field_byte gives ByteField |
| Field.DumpShort | cl_dump_field.c:175-183 | clarion_dump_field_short gives ShortField |
| Field.Nibble | cl_dump_field.c:215-225 | every nibble is a value below 16 |
| Field.NibbleChar | cl_dump_field.c:217-223 | a nibble prints as a character from '0' to '?' and never as '.' |
| Field.Digits | cl_dump_field.c:203-228 | a field of `length` bytes gives 2·length digits, one fewer when decsig is odd |
| Field.DigitsStep | cl_dump_field.c:215-225 | each further digit is the next nibble, the first skipped when decsig is odd |
| Field.NibbleAt | cl_dump_field.c:215-225 | byte i holds nibbles 2i (its high four bits) and 2i+1 (its low four) |
| Field.WithPoint | cl_dump_field.c:209-213 | the point goes in once, before digit decsig - decdec, when that digit exists; otherwise the digits are unchanged |
| Field.WithPointStep | cl_dump_field.c:209-227 | one pass of the loop writes the point first exactly when the digits so far number decsig - decdec |
| Field.DecimalChars | cl_dump_field.c:200-229 | the built characters are the digits with exactly one extra character, the point at decsig - decdec, when that position is among the digits |
| Field.DecimalCharsOnePoint | cl_dump_field.c:209-213 | the point appears at that one position and nowhere else |
| Field.StripZeros | cl_dump_field.c:231-236 | stripping removes exactly the leading '0' characters and leaves a suffix that does not start with '0' |
| Field.DecimalTextNoLeadingZero | cl_dump_field.c:231-246 | a DECIMAL prints the placeholder, or text that starts with a non-zero character, or "0." for a value below one |
| Field.DecimalAsWrittenDiffers | cl_dump_field.c:232 | the strip guard as written differs from stripping every leading zero exactly on a one-byte field with an odd decsig, no point, a zero digit and a placeholder other than "0" |
| Field.DecimalOneDigit | cl_dump_field.c:203-228 | a one-byte field with an odd decsig and no point yields the single digit of its low nibble |
| Field.DecimalCharsOutnumber | cl_dump_field.c:207-232 | in every other field the characters outnumber the bytes, or there are none |
| Field.DecimalZeroOneByte | cl_dump_field.c:232-245 | the zero one-byte field [0] with decsig 1 prints "0" as written, and nothing when every leading zero is stripped |
| Field.DecimalText | cl_dump_field.c:229-245 | with every leading zero stripped, a value prints as nothing exactly when all its characters are '0' |
| Field.DecimalTextAsWritten | cl_dump_field.c:229-245 | as written, the strip applies only when the characters outnumber the bytes; otherwise the one character built is printed as it is |
| Field.WrittenNext | cl_dump_field.c:215-227 | the character a pass writes is the next digit |
| Field.DigitLoopNext | cl_dump_field.c:207-228 | one pass of the digit loop keeps its invariant: the buffer holds the digits so far with the point placed |
| Field.DigitLoopStart | cl_dump_field.c:203-206 | the loop starts on the first nibble, or the second for an odd decsig, with nothing written |
| Field.DigitLoopDone | cl_dump_field.c:207-229 | once every byte is consumed the buffer holds every digit with the point placed, at most 2·length + 1 characters |
| Field.PutDigit | cl_dump_field.c:209-227 | writes the point if due, then the digit, extending the buffer by WithPoint |
| Field.MaskedNibble | cl_dump_field.c:215-225 | the mask selects a value below 16 |
| Field.DigitStep | cl_dump_field.c:209-227 | one pass keeps the digit loop invariant and stays within the 2·length + 2 buffer |
| Field.BuildDecimal | cl_dump_field.c:200-229 | the malloc'd 2·length + 2 buffer ends up holding DecimalChars followed by a NUL |
| Field.DigitPasses | cl_dump_field.c:207-228 | the while loop writes the digits with the point in place |
| Field.SkipZeros | cl_dump_field.c:232-236 | the strip loop runs only while i < strlen(cbuf), with i still the byte count: then it stops at the first character that is not '0'; otherwise the start stays at 0 |
| Field.DecimalField | cl_dump_field.c:186-251 | a DECIMAL field prints DecimalTextAsWritten of its bytes, the source's guarded strip, or is a short read |
| Field.DumpDecimal | cl_dump_field.c:186-251 | clarion_dump_field_decimal gives DecimalField, as written |
| Field.RenderDecimal | cl_dump_field.c:229-246 | the characters left in the buffer print as DecimalTextAsWritten: the guarded strip, "0" before a leading point, the placeholder for nothing |
| Field.BlockBytes | cl_dump_field.c:51-52 | a memo block holds 252 text bytes after its 4-byte next pointer |
| Field.ReadBlock | cl_dump_field.c:47-57 | block blk, at the 32-bit offset 6 + 256·blk modulo 2^32, can be read exactly when it lies in the memo file, and gives its next pointer and printed text |
| Field.Append | cl_dump_field.c:72 | text printed before the rest of a walk stays in front of it; an error stays an error |
| Field.AppendAssoc | cl_dump_field.c:50-84 | printing a, then b, then the rest is printing a + b, then the rest |
| Field.Walk | cl_dump_field.c:49-84 | the bytes the memo walk prints; its only errors are a short read or a cycle longer than the fuel (each step is WalkNext; the self-loop line on stderr is MemoLoop) |
| Field.ReaderReadsFile | cl_dump_field.c:47-52 | reading a memo file by block number gives its blocks |
| Field.WalkReadsFile | cl_dump_field.c:49-84 | any reader that gives the blocks of a file walks that file's chain |
| Field.WalkFuel | cl_dump_field.c:49-84 | a walk that completes completes the same way with more fuel |
| Field.MemoChainFuel | cl_dump_field.c:49-84 | a memo chain that completes is independent of the fuel beyond what it needs |
| Field.ChainBlocksRead | cl_dump_field.c:50-83 | every block of a chain can be read |
| Field.WalkBlocks | cl_dump_field.c:50-84 | a walk over a chain prints exactly the chain's blocks in order |
| Field.MemoChainBlocks | cl_dump_field.c:47-84 | the memo text of a file is the text of its chain of blocks, in order |
| Field.MemoChain | cl_dump_field.c:47-84 | the memo text from block blk; its only errors are a short read or a cycle, and an Ok chain starts at a block in the file |
| Field.BlockStart | cl_dump_field.c:47 | the seek offset of a block fits an unsigned 32-bit value and lies after the 6-byte memo header |
| Field.BlockStartWraps | cl_dump_field.c:82 | the offset is blk · 256 + 6 modulo 2^32, as the uint32 arithmetic of the source computes it |
| Field.MemoLoop | cl_dump_field.c:74-80 | the block reported as looping back to itself is a nonzero block of the file whose next pointer is itself, reached by a walk that succeeds |
| Field.MemoLoopAtEnd | cl_dump_field.c:74-80 | along a chain of blocks, the looping block is the last one exactly when it points to itself |
| Field.MemoNote | cl_dump_field.c:76-79 | the "looping back to itself" line is printed only for a live record with a memo pointer whose chain is read |
| Field.MemoBuffer | cl_dump_field.c:54-57 | with the NUL in place, a middle block prints its text up to the first NUL and the last block its text up to the last non-space byte |
| Field.LoadMemoBlock | cl_dump_field.c:51-57 | one block read into the entry buffer gives its next pointer and leaves the block's printed text as the C string |
| Field.ReadMemoBlock | cl_dump_field.c:51-72 | one block gives its next pointer and its printed text |
| Field.WalkNext | cl_dump_field.c:72-83 | after printing a block the walk ends on a zero or self pointer, fails on a short read, and otherwise goes on from the next block; the stderr line of the self pointer is MemoLoopAtEnd |
| Field.WalkMemo | cl_dump_field.c:47-84 | the do-while over the memo file gives Walk, and the block it reports as looping back to itself is MemoLoop |
| Field.MemoEntry | cl_dump_field.c:39-45 | a deleted record or a zero memo pointer prints the placeholder |
| Field.PrintChain | cl_dump_field.c:47-86 | the walk's bytes printed with "%s" |
| Field.DumpMemoEntry | cl_dump_field.c:33-87 | clarion_dump_memo_entry prints the placeholder for a deleted record or zero pointer, otherwise the chain from block rptr - 1; its stderr is MemoNote, the "looping back to itself" line |
| SqlText.Escape | cl_dump_data_sql.c:48-52 | escaping at least keeps and at most doubles the length |
| SqlText.EscapeRoundTrip | cl_dump_data_sql.c:48-52 | escaping loses nothing: reading the doubled quotes and backslashes back gives the original bytes |
| SqlText.EscapeLength | cl_dump_data_sql.c:48-52 | the escaped text is longer by exactly the number of quotes and backslashes |
| SqlText.EscapeSnoc | cl_dump_data_sql.c:48-52 | the copy works byte by byte, left to right |
| SqlText.EscapeNoNul | cl_dump_data_sql.c:48-52 | escaping a NUL-free string adds no NUL |
| SqlText.EscapeStep | cl_dump_data_sql.c:49-51 | one pass copies the byte, doubled when it is a quote or a backslash, and moves j by the extra bytes written |
| SqlText.EscapeInto | cl_dump_data_sql.c:48-52 | the copy loop, NUL included, leaves the escaped string as the C string in tempBuff |
| SqlText.EscapedWithNul | cl_dump_data_sql.c:48-52 | once the NUL is copied after the escaped bytes, that is the C string |
| SqlText.SqlStringField | cl_dump_data_sql.c:35-74 | a STRING in SQL can be printed exactly when its bytes are in the file |
| SqlText.SqlStringNull | cl_dump_data_sql.c:44-71 | NULL is printed exactly when the plain dump would print nothing: the field is all spaces or starts with a NUL |
| SqlText.DumpStringSql | cl_dump_data_sql.c:35-74 | clarion_dump_field_string_sql gives SqlStringField: NULL, or the trimmed, escaped text in single quotes |
| SqlText.Sanitise | cl_dump_data_sql.c:109-127 | sanitising at most doubles the length |
| SqlText.SanitiseClean | cl_dump_data_sql.c:109-127 | sanitised text holds no newline and no carriage return, and no NUL when the input had none |
| SqlText.SanitiseLength | cl_dump_data_sql.c:109-127 | each newline and quote adds one byte and each carriage return removes one |
| SqlText.SanitiseByteLength | cl_dump_data_sql.c:111-126 | one byte of the switch changes the length by its kind |
| SqlText.SanitiseStep | cl_dump_data_sql.c:111-126 | one pass of the switch writes the byte's sanitised form and leaves the rest of the zeroed buffer zero; a carriage return moves j back by one |
| SqlText.SanitiseInto | cl_dump_data_sql.c:109-127 | the sanitising loop leaves Sanitise of the memo text as the C string in the 512-byte buffer |
| SqlText.LastBlock | cl_dump_data_sql.c:95-152 | the SQL memo walk, seeking to the 32-bit offset 6 + 256·blk modulo 2^32, follows next pointers until one is 0 (it has no self-loop check) and keeps the 252 bytes of that block; its only errors are a short read and a cycle |
| SqlText.SqlMemo | cl_dump_data_sql.c:84-89 | a deleted record or a zero memo pointer prints NULL |
| SqlText.SqlMemoOneLine | cl_dump_data_sql.c:93-154 | a quoted SQL memo is a single line between single quotes |
| SqlText.MemoSqlBlock | cl_dump_data_sql.c:96-128 | one pass clears the buffer and only a block with a zero next pointer is trimmed, collapsed and sanitised into it; earlier blocks print nothing |
| SqlText.CleanLastBlock | cl_dump_data_sql.c:104-127 | the trimmed last block, collapsed and sanitised, is what the buffer holds |
| SqlText.DumpMemoSql | cl_dump_data_sql.c:77-157 | clarion_dump_memo_entry_sql gives SqlMemo: NULL, or the last block's cleaned text in single quotes |
| DataSql.LowerText | cl_dump_data_sql.c:192-195 | tolower changes each character on its own, and only 'A'..'Z' |
| DataSql.AfterLastSlash | cl_dump_data_sql.c:185-190 | what follows the last '/' is a '/'-free suffix that is the whole path or follows a '/' |
| DataSql.TableName | cl_dump_data_sql.c:183-195 | the table name has no '/' and no uppercase letter and is no longer than the path without its extension |
| DataSql.AfterLastSlashAt | cl_dump_data_sql.c:185-190 | any '/'-free suffix that follows a '/' or starts the path is what strrchr leaves |
| DataSql.TableNameOfComponent | cl_dump_data_sql.c:183-195 | for dir/base.ext the table name is base, lowercased: the directories and the four-character extension are dropped |
| DataSql.LastSlashEnd | cl_dump_data_sql.c:185-190 | points just after the last '/' of the stem, or at its start |
| DataSql.TableNameOf | cl_dump_data_sql.c:183-195 | the strdup, cut, strrchr and tolower loop give TableName |
| DataSql.LowerInPlace | cl_dump_data_sql.c:192-195 | the tolower loop gives LowerText |
| DataSql.SqlColsBeforeLast | cl_dump_data_sql.c:224-264 | before the table's last field every printed value is followed by ", " |
| DataSql.SqlValuesJoin | cl_dump_data_sql.c:224-264 | the values are the printed items joined by ", ", with a trailing ", " left when the last field is a GROUP |
| DataSql.DeletedCommentNamesFlag | cl_dump_data_sql.c:202-219 | a deleted record's comment starts "-- Record attributes: [", naming at least its DELETED RECORD flag |
| DataSql.PrintSqlValues | cl_dump_data_sql.c:224-264 | the value loop gives SqlValues |
| DataSql.SqlOutput | cl_dump_data_sql.c:197-272 | a live record's output starts with "INSERT INTO "; every record's output ends with ");" and a newline (a value holding a newline is printed raw, so it need not be one line) |
| Records.ValueText | cl_dump_data.c:101-121 | a decoded field's text can be produced exactly when its bytes are in the file; DECIMAL prints as written, with the guarded strip |
| Records.DumpValue | cl_dump_data.c:101-121 | the field switch calls the decoder of the field's type on the shared buffer and gives ValueText |
| Records.CellAt | cl_dump_data.c:95-125 | a GROUP field gives a GROUP cell and reads nothing; an unknown type gives an unknown cell; a decoded type gives its decoder's text or its error |
| Records.Cells | cl_dump_data.c:88-127 | the field loop gives one cell per field |
| Records.CellsAt | cl_dump_data.c:88-127 | cell j is field j decoded where the previous fields ended: at the record start plus their widths |
| Records.CellsFit | cl_dump_data.c:88-127 | with decoders that fit n bytes, a record's fields decode exactly when they all lie within those n bytes |
| Records.DecoderFits | cl_dump_data.c:101-121 | the dump's decoders fit the data file: a field decodes exactly when its bytes are in it |
| Records.RecordFits | cl_dump_data.c:88-127 | a record yields its cells exactly when all its fields are in the file |
| Records.WidthAppend | cl_dump_data.c:88-127 | the bytes consecutive fields read add up |
| Records.GroupReadsNothing | cl_dump_data.c:95-98 | a GROUP field moves the file cursor by nothing |
| Records.CellsPrefixErr | cl_dump_data.c:88-127 | once a field runs past the file, the record's result is that error |
| Records.CellsSnoc | cl_dump_data.c:88-127 | one more pass of the field loop appends that field's cell and moves the cursor by the bytes it read |
| Records.ReadCell | cl_dump_data.c:95-125 | one turn of the field loop gives CellAt |
| Records.ReadCells | cl_dump_data.c:88-127 | the field loop gives Cells and leaves the cursor after the record's fields |
| Records.HeaderAt | cl_dump_data.c:56-57 | the 5-byte record header can be read exactly when it is in the file; rhd is a byte and rptr the little-endian word after it |
| Records.SlotAt | cl_dump_data.c:56-63 | a record is skipped exactly when it is deleted and only active records are dumped, and then the cursor moves by reclen; otherwise its header and its cells are read and the cursor moves past its fields |
| Records.ReadSlot | cl_dump_data.c:54-63 | the header read and the skip test give SlotAt |
| Records.MemoColumn | cl_dump_data.c:129-134 | a memo column is printed exactly when the file has a memo file and -n was not given |
| Records.ReadMemoColumn | cl_dump_data.c:129-134 | the memo step gives MemoColumn |
| Records.MemoColumnNote | cl_dump_data.c:129-134 | a memo line on stderr comes only from the non-SQL memo column, when the memo file is shown and read |
| Records.Items | cl_dump_data_sql.c:224-264 | each column item is absent exactly for a GROUP field |
| Records.Present | cl_dump_data_csv.c:54-94 | the present items are no more than the fields |
| Records.CellsMarkGroups | cl_dump_data.c:95-98 | the cells of a record are GROUP cells exactly at its GROUP fields |
| Records.PresentEmpty | cl_dump_data_csv.c:54-94 | no item is present exactly when every field is a GROUP |
| Records.PresentSameShape | cl_dump_data_csv.c:54-94 | records with GROUPs at the same places print the same number of values |
| DumpData.RhdNone | cl_dump_data.c:67-80 | " NONE" is printed exactly when none of the eight flag bits is set |
| Clarion.Hex | cl_dump_data.c:66-81 | "%0nx" prints exactly n hex digits |
| Clarion.HexDigit | cl_dump_data.c:66 | a lowercase hex digit reads back as its value |
| Clarion.HexRoundTrip | cl_dump_data.c:66-81 | the n hex digits printed for a value below 16^n spell that value |
| DumpData.HeaderHexExact | cl_dump_data.c:66-81 | the rhd byte and the 32-bit memo pointer fit their "%02x" and "%08x" widths, so nothing is lost |
| DumpData.PadLeft | cl_dump_data.c:100 | "%8s" right-justifies in eight columns with spaces and prints a longer name whole |
| DumpData.FieldLinesAppend | cl_dump_data.c:88-127 | the lines of consecutive fields follow each other |
| DumpData.GroupLineless | cl_dump_data.c:95-98 | a GROUP field contributes no line wherever it stands |
| DumpData.GroupLast | cl_dump_data.c:95-98 | a GROUP field at the end contributes no line |
| DumpData.PlainOutput | cl_dump_data.c:65-138 | both blocks of a read record open with "=== RECORD n:", and the stdout block ends with a newline |
| DumpData.PrintFieldLines | cl_dump_data.c:88-127 | the field loop prints FieldLines |
| DumpData.PrintRhd | cl_dump_data.c:67-80 | the flag loop prints " NONE" for a zero byte, else the name of each set bit |
| DataCsv.CsvColsJoin | cl_dump_data_csv.c:54-94 | the columns are the printed values joined by the separator, with one separator in front when the first field is a GROUP and another is printed |
| DataCsv.LastItem | cl_dump_data_csv.c:61-67 | a GROUP field prints nothing; any other field prints the separator, unless it is field 0, then its value |
| DataCsv.LeadAfterPresent | cl_dump_data_csv.c:66-67 | a printed field after others leads the line with a separator when none before it printed, or when the earlier line did |
| DataCsv.JoinSnoc | cl_dump_data_csv.c:66-67 | joining one more value adds the separator and the value |
| DataCsv.CsvOutput | cl_dump_data_csv.c:54-102 | a CSV record's text ends in a newline (a STRING or memo value holding a newline is printed raw, so it need not be one line) |
| DataCsv.PrintCsvCols | cl_dump_data_csv.c:54-94 | the field loop prints CsvCols |
| Dump.RecordAt | cl_dump_data.c:54-139 | a skipped record prints nothing and moves the cursor by reclen; a read one moves it past its header and fields, and in the plain dump opens with the record banner |
| Dump.RunStrides | cl_dump_data.c:54-139 | passes that each move the cursor by w leave it n·w further after n passes |
| Dump.RecordsAligned | cl_dump_data.c:54-63 | when reclen is 5 plus the field widths, the cursor after n records is n·reclen further |
| Dump.RunSilent | cl_dump_data.c:54-63 | passes that print nothing print nothing together |
| Dump.AllSkippedSilent | cl_dump_data.c:59-63 | a run of deleted records under -d prints nothing and passes over all of them |
| Dump.RunPrefix | cl_dump_data.c:54-139 | what the first passes print is a prefix of what more passes print, on both streams |
| Dump.DumpedPrefix | cl_dump_data.c:54-139 | the output after m records stays at the head of the output after n ≥ m |
| Dump.RunErr | cl_dump_data.c:54-139 | once a pass fails, the loop's result is that failure |
| Dump.DumpRecords | cl_dump_data.c:52-141 | the record loop over numrecs records, shared by the plain, CSV and SQL dumps, gives Dumped |
| Dump.DumpRecord | cl_dump_data.c:56-138 | one pass of the record loop gives RecordAt |
| DumpMeta.AttrItemsEmpty | cl_dump_meta.c:56-67 | the attribute list is empty exactly when none of the bits below n is set, and otherwise starts with " [" |
| DumpMeta.LowByteClear | cl_dump_meta.c:56-63 | the low byte of sfatr is clear exactly when none of its eight bits is set |
| DumpMeta.AttributesNone | cl_dump_meta.c:56-67 | NONE is printed exactly when none of the eight attribute bits is set |
| DumpMeta.ListAttributes | cl_dump_meta.c:54-69 | the attribute loop of clarion_dump_header prints AttributesText |
| DumpMeta.ListBits | cl_dump_meta.c:58-62 | the loop over bits 0..7 prints " [name]" for each set bit, in bit order |
| DumpMeta.ClockOfRoundTrip | cl_dump_meta.c:103-118 | with every field taken from chgtime - 1, a valid time gives hours below 24, minutes and seconds below 60, centiseconds below 100, and they count back to chgtime - 1 |
| DumpMeta.ClockOfInjective | cl_dump_meta.c:109-117 | two valid times never print the same clock reading |
| DumpMeta.ClockAsWrittenWraps | cl_dump_meta.c:109-117 | as written, chgtime 360000 prints 00:00:00.00, earlier than chgtime 1, which prints 00:00:00.01 |
| DumpMeta.ClockAsWritten | cl_dump_meta.c:109-117 | as written: the hours are (chgtime - 1) / 360000 and the minutes, seconds and centiseconds count chgtime mod 360000, each in range, the hours below 24 for a valid time |
| DumpMeta.ClockAsWrittenOffHour | cl_dump_meta.c:109-117 | as written, the clock counts back to chgtime itself, except on a whole hour, where it is an hour earlier |
| DumpMeta.ClockOf | cl_dump_meta.c:103-118 | the corrected reading, every field from chgtime - 1: minutes and seconds below 60, centiseconds below 100, hours below 24 for a valid time |
| DumpMeta.ClockOfHour | cl_dump_meta.c:109-117 | read from chgtime - 1, the same two times print 00:59:59.99 and 00:00:00.00 |
| DumpMeta.Pad2Length | cl_dump_meta.c:111-117 | "%02d" of a value below 100 is two characters |
| DumpMeta.TimeText | cl_dump_meta.c:102-119 | INVALID exactly when chgtime is below 1 or above 8640000; otherwise 11 characters hh:mm:ss.cc, the hours from (chgtime - 1) / 360000 and the minutes, seconds and centiseconds from chgtime mod 360000, as written |
| DumpMeta.DecodeDate | cl_dump_meta.c:128-153 | the date decode, with its month loop over the local days_in_month array, gives DateOf |
| DumpMeta.DateOf | cl_dump_meta.c:121-155 | no date exactly when chgdate is at most 3 or above 109211; a date has a month of at least 1 |
| DumpMeta.MonthLoop | cl_dump_meta.c:142-152 | February has 29 days when year % 4 == 0 and year != 1900; the loop gives MonthWalk |
| DumpMeta.NatToString4 | cl_dump_meta.c:153 | a four-digit year prints as four characters |
| DumpMeta.DateText | cl_dump_meta.c:121-155 | the chgdate text is INVALID exactly when chgdate is at most 3 or above 109211 |
| DumpMeta.DaysBeforeYearClosed | cl_dump_meta.c:128-141 | from 1801 to 2100 every fourth year is a leap year except 1900, giving the closed form of the days before a year |
| DumpMeta.MonthTableGregorian | cl_dump_meta.c:142-143 | within 1801..2099 the month table's leap rule agrees with the Gregorian one |
| DumpMeta.SumMonths | cl_dump_meta.c:46-48 | the month lengths add up to the year's length |
| DumpMeta.SumSplit | cl_dump_meta.c:144-152 | a sum over months from i is month i plus the rest |
| DumpMeta.SumAppend | cl_dump_meta.c:144-152 | a sum over one more month adds that month |
| DumpMeta.MonthWalkInRange | cl_dump_meta.c:144-152 | started on a day inside the remaining months, the month loop breaks with a day between 1 and that month's length, and the months before plus the day count back to the start |
| DumpMeta.YearAndDayCalendar | cl_dump_meta.c:128-141 | the year arithmetic gives a year from 1801 to 2099 and a day inside that year, and they count back to chgdate |
| DumpMeta.DateOfCalendar | cl_dump_meta.c:121-155 | every valid chgdate decodes to a Gregorian date between 1801 and 2099 whose Clarion day number is chgdate again; the month loop always breaks with the day inside its month |
| DumpMeta.DateOfInjective | cl_dump_meta.c:121-155 | two valid day numbers never print the same date |
| DumpMeta.StripFlag | cl_dump_meta.c:293-303 | a flag tag in front of the rest reads back as that flag |
| DumpMeta.ParseFlagsText | cl_dump_meta.c:293-303 | the four flag tags read back give the four flags, in print order |
| DumpMeta.ParseHeadText | cl_dump_meta.c:288-291 | [INDEX] or [KEY] reads back |
| DumpMeta.FlagsTextShape | cl_dump_meta.c:293-303 | the flag tags are empty or start with a space |
| DumpMeta.ParseKeyClassText | cl_dump_meta.c:284-308 | the keytyp text determines the classification: reading it back gives it again |
| DumpMeta.KeyTypeErrorText | cl_dump_meta.c:286-306 | only keytype 0xff prints [ERROR] |
| DumpMeta.KeyTypeIndex | cl_dump_meta.c:288-294 | INDEX is printed exactly for a low nibble of 1, and an index is then always also listed with [DUPLICATES] |
| MetaCsv.FirstColon | cl_dump_meta_csv.c:58 | strchr finds the first ':' |
| MetaCsv.AfterColon | cl_dump_meta_csv.c:58-60 | what follows the first ':' is a suffix after it, or the whole name when there is none |
| MetaCsv.ColumnName | cl_dump_meta_csv.c:56-60 | a column name holds no NUL |
| MetaCsv.HeaderItems | cl_dump_meta_csv.c:41-61 | no column for a GROUP field, the column name for every other field |
| MetaCsv.CsvHeader | cl_dump_meta_csv.c:41-68 | the CSV schema's text ends in a newline (a field name holding a newline would be printed raw) |
| MetaCsv.ColumnsLineUp | cl_dump_meta_csv.c:41-61 | the schema line and a data line have their columns in the same places: as many values, and the same leading separator |
| MetaCsv.PrintCsvHeader | cl_dump_meta_csv.c:32-71 | clarion_dump_field_desc_csv prints CsvHeader, with MEMO last when the memo column is shown |
| MetaSql.SqlName | cl_dump_meta_sql.c:44-56 | the SQL name is the column name lowercased, with no uppercase letter left |
| MetaSql.MessageName | cl_dump_meta_sql.c:94 | the unknown-type message names the trimmed buffer, with only its part after the first ':' lowercased |
| MetaSql.SqlNameOf | cl_dump_meta_sql.c:44-56 | the copy, the trim, the strchr and the lowercasing in place give SqlName |
| MetaSql.TrimmedBufferOfNulAt | cl_dump_meta_sql.c:44-45 | trimming the 17-byte copy leaves the trimmed name as its C string |
| MetaSql.ColonEnd | cl_dump_meta_sql.c:46-51 | strchr(buf, ':') + 1, or the buffer start, is where AfterColon begins |
| MetaSql.FirstColonAt | cl_dump_meta_sql.c:46 | a ':' with none before it is the one strchr finds |
| MetaSql.LowerFrom | cl_dump_meta_sql.c:53-56 | the tolower loop lowercases the C string from the start point |
| MetaSql.SqlType | cl_dump_meta_sql.c:72-96 | LONG is BIGINT, REAL FLOAT, both STRING types VARCHAR(length), BYTE and SHORT SMALLINT, DECIMAL NUMERIC(decsig+2+decdec,decdec), and an unknown type has none |
| MetaSql.ColumnText | cl_dump_meta_sql.c:63-99 | a field's text ends in ',' exactly when it is not a GROUP and not the table's last field |
| MetaSql.ColumnDef | cl_dump_meta_sql.c:70-96 | a column definition never ends in ',' itself |
| MetaSql.KnownTypesSilent | cl_dump_meta_sql.c:93-95 | fields of known type or GROUP print nothing on stderr |
| MetaSql.PrintColumns | cl_dump_meta_sql.c:42-100 | the field loop prints Columns on stdout and the unknown-type notes on stderr |
| MetaSql.ExpandOk | cl_dump_meta_sql.c:156-171 | when every component's members name fields, so does every member of the expansion |
| MetaSql.Names | cl_dump_meta_sql.c:169-188 | one quoted name per member |
| MetaSql.NamesAppend | cl_dump_meta_sql.c:169-188 | the names of consecutive members follow each other |
| MetaSql.ColsAppend | cl_dump_meta_sql.c:185-188 | a list continued after a non-empty list, or after one that had to lead, puts ", " before its first name |
| MetaSql.KeyColsFlat | cl_dump_meta_sql.c:156-190 | the two nested loops print the names of all members of all components as one list |
| MetaSql.EmptyLead | cl_dump_meta_sql.c:185 | after components that gave no member, the list must lead with ", " |
| MetaSql.ExpandFirst | cl_dump_meta_sql.c:156-168 | the first component's members come first |
| MetaSql.ColsJoin | cl_dump_meta_sql.c:185-188 | the list is the names joined by ", ", with a stray leading ", " only after an empty first GROUP |
| MetaSql.JoinStep | cl_dump_meta_sql.c:185-188 | joining one more name adds ", " and the name |
| MetaSql.KeyColsJoin | cl_dump_meta_sql.c:156-190 | an index's column list is the names of the fields its components stand for, GROUPs expanded to their sub-parts, joined by ", " |
| MetaSql.KeyStatements | cl_dump_meta_sql.c:127-195 | the statements of all keys; no keys give none, and the only error is a key component naming no field |
| MetaSql.KeyStatementUnique | cl_dump_meta_sql.c:143-154 | the index is CREATE UNIQUE INDEX exactly when bit 0 (DUPSW) of keytype is clear |
| MetaSql.VerbPrefix | cl_dump_meta_sql.c:143-154 | the two verbs differ in their first 20 characters |
| MetaSql.KeyStatementsOk | cl_dump_meta_sql.c:127-193 | the key statements are printed exactly when every member of every key names a field; otherwise the dump reads outside the field table |
| MetaSql.KeyStatementsStep | cl_dump_meta_sql.c:127-193 | one more key is printed exactly when the keys before it and that key are |
| MetaSql.AllSnoc | cl_dump_meta_sql.c:127-193 | every key is well formed exactly when the keys before the last and the last one are |
| MetaSql.Schema | cl_dump_meta_sql.c:201-228 | the schema is printed exactly when the key statements are, and its stderr is the unknown-type notes |
| MetaSql.PrintKeyCols | cl_dump_meta_sql.c:156-190 | the component loop prints KeyCols |
| MetaSql.PrintCols | cl_dump_meta_sql.c:169-189 | the member loop puts ", " before a name unless it is the first of the key |
| Cldump.MemoFileName | cldump.c:43-46 | the memo file name keeps the data file name's length and all but its last three characters, which become "MEM" |
| Cldump.OpenMemo | cldump.c:34-68 | nothing is opened when the memo bit of sfatr is clear; otherwise a memo file that does not open, or whose first word is not 0x334D, is an error, and one that opens with that signature is accepted |
| Cldump.MemoFileNameOf | cldump.c:43-46 | the copy with its last three characters overwritten one at a time gives MemoFileName |
| Cldump.Index | cldump.h:70-79 | every flag has its own position in bit order |
| Cldump.BitValues | cldump.h:70-79 | the bit of each flag is its CL_OPT_ constant |
| Cldump.BitsAt | cldump.c:214-277 | bit i of the mask ORed together from the flags is set exactly when the i-th flag was given |
| Cldump.MaskBit | cldump.c:214-277 | testing a flag's bit in opts is testing whether the flag was given |
| Cldump.MaskFits | cldump.h:70-78 | every combination of the nine option flags fits below 512, within the unsigned short `opts` |
| Cldump.DefaultMask | cldump.c:305-306 | the default is DUMP_DATA, DUMP_META and SCHEMA |
| Cldump.UChar | cldump.c:269 | storing atoi's value in the unsigned char decmode reduces it modulo 256 |
| Cldump.KeyModeAsWrittenWraps | cldump.c:269-275 | as written, "-x 257" passes the 1..4 check as key location 1 |
| Cldump.KeyModeAsWrittenNegative | cldump.c:269-275 | as written, "-x -255" passes the 1..4 check as key location 1 |
| Cldump.KeyMode | cldump.c:269-275 | the key location is accepted exactly when the number given is 1..4, and is that number |
| Cldump.KeyModeAgrees | cldump.c:269-275 | wherever the intended check accepts, the check as written accepts the same key location |
| Cldump.Atoi | cldump.c:269 | atoi of a string of digits is the number it spells, and a leading minus gives a value of at most 0 |
| Cldump.KeyModeAsWritten | cldump.c:269-275 | as written, -x accepts a number whose low byte is 1..4, and the key location is that low byte |
| Cldump.Apply | cldump.c:214-277 | one option adds its flag to the mask; it is refused exactly for a field separator longer than one character, -c after -S or -S after -c, and a -x number whose low byte is outside 1..4 |
| Cldump.ParseOpts | cldump.c:210-302 | an accepted command line sets exactly the flags of the options given |
| Cldump.ParsedConsistent | cldump.c:210-302 | an accepted command line never has both CSV and SQL output, and -x always holds a key location 1..4 |
| Cldump.LongSeparatorRefused | cldump.c:223-228 | a -f argument longer than one character stops main, wherever it comes |
| Cldump.CsvSqlRefused | cldump.c:232-249 | -c and -S together stop main, in either order |
| Cldump.KeepsOutput | cldump.c:232-249 | once -c or -S is accepted, every later handle keeps that flag |
| Cldump.ReadOptions | cldump.c:210-302 | the getopt loop, updating the handle option by option and stopping at the first error, gives ParseOpts, whose -x test is the as-written KeyModeAsWritten |
| Cldump.RefusedStays | cldump.c:210-302 | a refusal is final: the options after it are not looked at |
| Cldump.Normalise | cldump.c:304-317 | no options give the default; otherwise the mask keeps every flag given and may add only DUMP_DATA |
| Cldump.NormaliseForces | cldump.c:308-317 | DUMP_DATA is added exactly when none of -d, -D, -m and -s was given but one of -n, -c and -S was |
| Cldump.NormaliseDumps | cldump.c:304-317 | after normalisation something is dumped, unless the only flags given are -U and -x |
| Cldump.Utf8AloneDumpsNothing | cldump.c:304-317 | -U alone selects no dump at all |
| Cldump.PlanOf | cldump.c:346-441 | an encrypted file is decrypted exactly under -x and refused without it; -x on a plain file ends main; otherwise the memo is opened unless -n, the header is dumped under -m, the schema under -s and the data under -D or -d, schema and data in the same format |
| Cldump.NoOptions | cldump.c:304-441 | a plain command line dumps the header, the plain schema and all the data, memo included |
| Cldump.CsvAlone | cldump.c:304-441 | -c alone dumps only the data, as CSV |
| Cldump.DecryptMode | cldump.c:268-354 | a decryption run uses the key location of the accepted -x, which is 1..4 |
| Cldump.Main | cldump.c:304-362 | the run is refused exactly when the options are; it decrypts exactly when the file is encrypted and -x was given, and opens the memo file exactly when -n was not given |
| Cldump.GivenFlag | cldump.c:304-317 | normalisation keeps DECRYPT and NO_MEMO exactly when their options were given |
| Cldump.SkipsUnderActive | cl_dump_data.c:59-63 | on the mask main builds, the record loop skips a record exactly when it is deleted and -d was given |
| Cldump.MemoShownUnlessSkipped | cl_dump_data.c:129 | on the mask main builds, the memo column is shown exactly when the file has a memo file and -n was not given |

## Left out

- File and process plumbing is not modelled. This covers `open`, `fstat`, `mmap`, `msync`, `munmap`, `fopen`, `fseek`, `fclose`, `reopen_dat_sync`, `free`, exit codes, and the "no filename" and "cannot open" exits of `main`. The data and memo files are byte sequences, and the decryptor's parser re-reads the array it has just changed. Output streams are returned strings, so the interleaving of stdout and stderr on a terminal is not modelled.
- `clarion_iconv` and the `-U` charset conversion are not modelled: iconv is an external library. Text is printed byte for byte. `-U` is parsed and its charset kept in the settings, but no dump uses it.
- REAL values are not rendered with `%*f`, because that is floating point. The rendered text is a parameter (`rendered`, `showReal`); only the test for the uninitialised byte pattern is modelled.
- Header dump lines other than the attributes, chgtime and chgdate are not modelled. These are the hex-dump lines of the header fields and of the field, key, picture and array tables (cl_dump_meta.c:50-101, 164-251, 269-335), plus the memo header lines under `-m` (cldump.c:70-80). The keytype classification is modelled. The rest is fixed `printf` formatting of values the readers already produce.
- `getopt_long` itself is not modelled. The command line is a sequence of already recognised options (`Opt`). Also left out: `-h`, `-v`, the usage text, and the missing-argument and unrecognised-option exits.
- The big-endian host path is not modelled: words are decoded little-endian directly. The element swap of `cl_fread` is modelled on its own (`Utils.Swapped`) and is not used by the readers.
- Utils.SingleSpace: the `memmove` is modelled on a copy of the buffer (`MoveDown`, `StrLen`, `CloseGap`); aliasing between the source and destination of the move is not modelled.
- Meta.ParseHeader, Meta.ReadFieldDescs, Meta.ReadKeyDescs, Meta.ReadPicDescs and Meta.ReadArrDescs: a read past the end of a file ends in `Err(Truncated)`. The source does not detect this, and continues on whatever `fread` left in its buffers.
- Meta.KeyAt: key files are not read. `keyfiles` maps each key file name that opens to its type byte at offset 29. A key file too short to hold that byte is not distinguished. The "Couldn't open key file" line is modelled (`KeyFileNote`).
- Meta.PartAt: when a GROUP part names a field outside the field table, the result is `Err(BadFieldRef)`; the source reads past the table. The field number of a non-GROUP part is not checked, as in the source.
- MetaSql.KeyStatements: a member outside the field table gives `Err(BadFieldRef)`; the source reads past the table.
- Decrypt.DecryptSchema: the source ignores the result of `clarion_read_pic_desc` during decryption. The model does the same: a failed picture re-read moves the cursor to the end of the file.
- Decrypt.DecryptAll: a span that would run past the mapping is `Err(OutOfRange)`; in the source it is an access outside the mapping.
- Decrypt.DecryptAll: the decryptor's stderr lines are not returned: "Could not re-read header" and the other re-read failures, "EOF reached for DAT file" and "EOF reached for MEM file", the key file lines of the schema re-read, and the start-past-data error (cl_decrypt.c:140, 183, 223, 251, 307, 317 and 372).
- Field.DumpLong, Field.DumpShort, Field.DumpByte and Field.DumpReal require a field width of at least 4, 2 and 1 bytes, and at most 8 bytes. For other widths the source reads bytes an earlier field left in the shared buffer.
- Field.DumpString, Field.ReadTrimmed and Records.DumpValue require the field length to be below the record length. The source writes its NUL at `buf[length]` in a buffer of `reclen` bytes.
- SqlText.DumpStringSql requires the escaped copy to fit the 32768-byte global buffer, which the source overflows otherwise.
- Dump.DumpRecords requires every field to be decodable in this sense (`Records.AllDecodable`).
- Field.Walk and SqlText.LastBlock take fuel, a bound on how many further blocks are read. In the source, Field.Walk's chain never ends when it cycles through two or more blocks (a self-pointer stops it); SqlText.LastBlock's chain never ends on any cycle, a self-pointer included, since the SQL walk has no self-loop check. In the model both end in `Err(Looping)` once the fuel runs out.
- Cldump.Atoi works on unbounded integers. The undefined result of `atoi` on a value that overflows `int` is not modelled.
- Cldump.MemoFileName, Meta.KeyFileName and DataSql.TableName require a file name of at least 3, 3 and 4 characters. On shorter names the source writes, or cuts, before the start of its copy.
- Meta.ParseHeader, Cldump.OpenMemo, Cldump.Apply and Cldump.Main: the message text of these error exits is not returned; each exit is an error value (`Err(BadSignature)`, `Err(NoMemoFile)`, `Err(BadMemoSignature)`, `Refused(...)`, `EncryptedRefused`, `NotEncrypted` and the readers' errors). The texts left out are "Invalid data file !" (cl_meta.c:47); the memo file lines of cldump.c:52 and cldump.c:64, the second without a newline; the option errors of cldump.c:226, 235, 244 and 273; and the exits of `main` at cldump.c:342, 357, 363, 375, 388, 401 and 412.
- Cldump.Main takes the header's sfatr as a parameter. Reading the header and the descriptors, and their error exits, are the readers of `Meta`.
- Concurrency, signals and memory allocation failures are not modelled.
- Decrypt.KeysPass: no lemma lists the bytes it XORs. Those are the even first 18 of each 19-byte key header and each 6-byte part. They appear only in OneKeyPass and RepeatPass, through XorSpan. Its cursor is tied to the parser's by KeysRereadEnd.

## Findings

| source | as written | input that shows it | evidently intended | confidence | as-written member | corrected member |
|---|---|---|---|---|---|---|
| cl_dump_meta.c:109-117 | the hours come from chgtime - 1, but the minutes, seconds and centiseconds come from chgtime itself | chgtime 360000 prints 00:00:00.00, which is earlier than chgtime 1 (00:00:00.01) | every field from chgtime - 1, the centiseconds since midnight: 00:59:59.99 | not executed | DumpMeta.ClockAsWritten, DumpMeta.ClockAsWrittenWraps | DumpMeta.ClockOf, DumpMeta.ClockOfRoundTrip |
| cl_dump_field.c:232 | the strip loop tests `i < strlen(cbuf)`, where `i` is still the byte count, so leading zeros are stripped only when the characters outnumber the bytes | a one-byte DECIMAL 0x00 with decsig 1 and decdec 0 prints "0", where every wider zero prints nothing | every leading '0' stripped, and an all-zero value printed as the placeholder | not executed | Field.DecimalTextAsWritten, Field.DecimalZeroOneByte | Field.DecimalText, Field.DecimalTextNoLeadingZero |
| cldump.c:269-275 | `atoi` of the `-x` argument is stored in the unsigned char `decmode` before the 1..4 test | `-x 257` and `-x -255` are accepted as key location 1 | refuse every number outside 1..4 | not executed | Cldump.KeyModeAsWritten, Cldump.KeyModeAsWrittenWraps, Cldump.KeyModeAsWrittenNegative | Cldump.KeyMode, Cldump.KeyModeAgrees |

The dumps follow the source as written: TimeText renders ClockAsWritten, the DECIMAL decoders render DecimalTextAsWritten, and the command line is parsed with KeyModeAsWritten. The corrected members state the evidently intended behaviour, and the lemmas in the last column prove it.
