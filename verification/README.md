# A verified model of the OceanBase driver's protocol stack and SQL scanners

The project models four connected parts of the driver and proves what they are for.

- **Framing.** `PacketConns` splits payloads into MySQL packets, wraps them in OB 2.0 frames and reassembles packets
  through a carry-over buffer. `Frames` has the byte layouts, `Checksums` both CRCs as division registers, `ExtraInfos`
  the entries of an extra-info block, `FrameFields` what every written frame carries at which position, `Cuttings`
  arbitrary cuttings of a stream into frames, `Lenenc` the length-encoded integers and strings. The polynomials are
  CRC-16/ARC and the Castagnoli polynomial of section 12.1 of RFC 3720 (with zero start value and no final complement,
  as the code has it).
- **Responses.** `Terminators`, `TextRows` and `BinaryRows` tell packets apart and decode rows. `Responses` sets the
  driver's readers and drain loops against the chains of OK, ERR and result-set packets a server sends, `ResponseRuns`
  follows whole runs of requests and the rows they deliver, `Truncations` responses that are cut short, and `Conns` has
  the classes with their fields: what each call sends and returns, the mutex and its hand-over to the rows,
  transactions, and what a call concludes about the session time zone. `Requests` puts bytes, packets and calls
  together: status, counters, columns and the values of rows.
- **SQL scanners.** `SqlLexer` and `Params` are the two six-state scanners and placeholder interpolation, `SqlTokens`
  writes templates as tokens, and `Literals` reads literals back to the values they stand for. `TimeZoneSql`
  strips comments and recognises time-zone statements, `TimeZoneStatements` writes such statements in every spelling,
  `SessionZones` is what the driver concludes from a statement and its answer, `HeadReading` is the exact condition
  under which it takes a text for a time-zone statement, and `ZoneServers` holds its conclusions against a server that
  executes queries of several statements by their form. `QuerySafety` finds the queries that are safe to send.
- **Oracle timestamps.** `Calendar` is the wall clock and counts its nanoseconds, `ZoneInverse` inverts a time zone,
  `OracleTime` decodes payloads.

Conventions: a byte is an integer from 0 to 255, a checksum register is a sequence of bits with the lowest bit first, a
socket is a pair of byte streams, and what the packet layer delivers is a sequence of packets. Where the source changes
fields or buffers in place the model is a class or a method over arrays; each is tied by its contract to a function of
the old state, and the lemmas are about that function. `hide` statements keep definitions out of proofs that do not
need them.

Stronger statements one might expect of the code fail, and the model keeps them failing:

- One OB 2.0 write can be several reads: the writer cuts at 2^24 - 33 bytes, the reader joins only packets of 2^24 - 1.
  `PacketConns.OneWriteOneRead` gives the exact condition for one read, `PacketConns.OB20Conservation` what holds always.
- A header or payload checksum of zero is not checked, and one can be stored with checksums on. The exact conditions
  are in `Frames.HeaderCorruptionRejected` and `Frames.PayloadCorruptionRejected`, changed frames that are accepted in
  `Frames.CorruptHeaderAccepted` and `Frames.CorruptPayloadAccepted`.
- A template `-?` with an argument rendered as `-1` becomes the comment `--1` (`Params.NegativeAfterMinus`).
  `Params.StructurePreserved` shows that this is the only way to lose lexical structure.
- A first text column of 2^24 bytes or more can be taken for the end of the rows: `TextRows.TextRowIsRow` says when,
  `TextRows.LongColumnEndsRows` and `TextRows.TrackedLongColumn` are inputs.
- Comment stripping is not idempotent (`TimeZoneSql.StripTwice`, `TimeZoneSql.StripTwiceDiffers`), and keeps the last
  byte of an unterminated block comment (`TimeZoneSql.UnterminatedBlock`).
- Time values with a length byte of 1 to 3 are read past their end, or past the end of the packet
  (`BinaryRows.ShortTimePanics`, `BinaryRows.ShortTimeReadsOn`, `BinaryRows.RowPanics`).
- A usable connection can have the wrong session time zone. Queries may hold several statements, but only the first
  words are looked at; an error skips the update although earlier statements were executed; and a line comment without
  a blank after its dashes is not seen. `ZoneServers.ZoneLost` has the inputs, `ZoneServers.BatchMirrors` the exact
  condition for every query and answer, `ZoneServers.MirrorOfServer` for every run, and `QuerySafety.SafeExactly` the
  queries that are safe whatever the answer.
- Fewer than six bytes at the end of an extra-info block are ignored (`ExtraInfos.EntriesExact`).

## Model

| member | source | states |
|---|---|---|
| Checksums.TableStep | internal/protocol/ob20.go:133-139 | looking up one byte in the table and shifting equals eight steps of the bit-by-bit division register, for any register and either polynomial |
| Checksums.BuildTable | internal/protocol/ob20.go:115-156 | every table entry is the remainder of its index |
| Checksums.Checksum | internal/protocol/ob20.go:132-165 | folding any data over the table gives the remainder of bit-by-bit polynomial division |
| Checksums.DivideLinear | internal/protocol/ob20.go:132-165 | checksums of messages of equal length are XOR-linear |
| Checksums.BurstDetected | internal/protocol/ob20.go:132-165 | two messages that differ only inside a window of two bytes (CRC-16) or four bytes (CRC-32C) have different checksums |
| Checksums.OwnChecksum | internal/protocol/ob20.go:132-165 | a message followed by its own checksum has the checksum zero |
| Checksums.RemainderOfTop | internal/protocol/ob20.go:115-156 | the byte 0x80 has the polynomial as its checksum, for either polynomial |
| Frames.HeaderRoundTrip | internal/protocol/ob20.go:51-103 | decoding an encoded header gives its fields cut to their widths, and fails exactly when magic or version differ; checksums on or off |
| Frames.EncodeHeaderInto | internal/protocol/ob20.go:51-75 | fills the first 31 bytes of the buffer with the encoded header and changes nothing else |
| Frames.ChecksumsOfTop | internal/protocol/ob20.go:109-165 | the two checksums of that byte, as literal bytes: 01 A0 and 78 3B F6 82 |
| Frames.HeaderCorruptionRejected | internal/protocol/ob20.go:78-103 | changing up to two adjacent covered bytes of an accepted header makes decoding fail if and only if the stored checksum is nonzero or the change shows in magic or version |
| Frames.CorruptHeaderAccepted | internal/protocol/ob20.go:99-102 | with a zero stored checksum, a header with a changed connection id is accepted |
| Frames.ZeroHeaderChecksum | internal/protocol/ob20.go:74-102 | checksums that are on store a zero too: for every header that ends in the checksum of its first part |
| Frames.PayloadCorruptionRejected | internal/protocol/packet.go:134-147 | changing up to four adjacent payload bytes of an accepted frame is rejected if and only if the trailer is nonzero or the extra-info block no longer fits; otherwise the changed body is delivered |
| Frames.CorruptPayloadAccepted | internal/protocol/packet.go:134-137 | with checksums on, a payload that ends in its own checksum is sent with a zero trailer, and any other payload of its length is accepted in its place |
| Frames.FrameRoundTrip | internal/protocol/packet.go:110-149 | a written frame reads back as the MySQL packet it carries exactly when the magic is the known one and its length fits three bytes; otherwise the reader rejects it |
| ExtraInfos.ParseOB20ExtraInfo | internal/protocol/ob20.go:183-203 | the cursor loop computes the list of entries of the block, or the truncation error |
| ExtraInfos.EntriesExact | internal/protocol/ob20.go:172-203 | a block reads as a list of entries if and only if it is their encoding followed by fewer than six bytes |
| PacketConns.PacketConn.Decode | internal/protocol/ob20.go:78-103 | decoding with the table-driven checksum agrees with decoding by division |
| PacketConns.PacketConn.ReadFrameBody | internal/protocol/packet.go:94-149 | three reads, checked one after the other, take exactly one frame off the stream or report its error |
| PacketConns.PacketConn.ReadPacketOB20 | internal/protocol/packet.go:83-152 | returns the first packet of the buffered bytes followed by all frame bodies, and leaves exactly the unconsumed suffix ahead; it reads no frame while the buffer holds a packet; it terminates |
| PacketConns.PacketConn.ReadPacketPlain | internal/protocol/packet.go:200-222 | joins chunks until one is short, checks every sequence byte, and leaves the rest of the stream |
| PacketConns.PacketConn.WritePacket | internal/protocol/packet.go:226-333 | writes the packets of the payload, closes exact multiples with an empty one, and advances the sequence byte by their number modulo 256, in plain and OB 2.0 mode; what the frames hold is `FrameFields.WriteCarries` |
| PacketConns.PacketConn.WriteEmptyContinuation | internal/protocol/packet.go:395-450 | writes an empty packet, in a frame without extra info in OB 2.0 mode |
| FrameFields.WriteCarries | internal/protocol/packet.go:226-333 | the bytes of a write of any length, cut up by the lengths at fixed positions, are one frame for each chunk; every header has this connection's id modulo 2^32 and request id modulo 2^24, the sequence byte of the packet inside twice, version 20, flag bit 1, bit 0 exactly with extra info and bit 3 exactly with the new format, and both checksums or zeros |
| FrameFields.EmptyCarries | internal/protocol/packet.go:395-450 | the same for the empty packet that closes a write |
| PacketConns.PacketConn.ResetSequence | internal/protocol/packet.go:57-59 | sets the sequence byte to 0 and changes nothing else |
| PacketConns.PacketConn.NextRequest | internal/protocol/packet.go:77-79 | the next request has the next request id |
| PacketConns.PacketConn.AddExtraInfo | internal/protocol/packet.go:69-71 | the next write carries the entry behind those already there |
| PacketConns.PacketConn.ClearExtraInfo | internal/protocol/packet.go:73-75 | the next write carries no entries |
| PacketConns.PlainRoundTrip | internal/protocol/packet.go:200-268 | for every payload length, reading what was written returns the payload and the rest of the stream, after floor(n / (2^24 - 1)) + 1 packets, reader and writer in step modulo 256 |
| PacketConns.PlainReaderExact | internal/protocol/packet.go:200-222 | the plain reader accepts nothing but what the writer sends for the payload it returns |
| PacketConns.ChunkReadsBack | internal/protocol/packet.go:110-149 | a frame of at most one chunk puts its packet in front of the reader, or stops it with a bad frame exactly when the magic is unknown or extra info makes it too long |
| PacketConns.OB20Conservation | internal/protocol/packet.go:226-293 | without extra info, the packets of a write of any length read back to the payload and nothing else of the stream is touched, checksums on or off |
| PacketConns.OneWriteOneRead | internal/protocol/packet.go:31-31 | one read returns one write if and only if the payload is shorter than a chunk, the magic is known and the frame with extra info fits three length bytes |
| PacketConns.OversizeRejected | internal/protocol/packet.go:237-277 | a write whose first frame overflows its length field through extra info is rejected by the reader |
| PacketConns.ChunkMaximal | internal/protocol/packet.go:31-31 | the chunk length of the writer is the largest the reader accepts |
| Cuttings.PieceReads | internal/protocol/packet.go:94-149 | a frame with any body, empty ones included, behind any extra-info block reads as that body |
| Cuttings.CutReads | internal/protocol/packet.go:83-152 | the bodies of any cutting into frames join to the stream that was cut |
| Cuttings.CutIndependent | internal/protocol/packet.go:83-152 | any two cuttings of one stream give the reader the same packets, those of the plain deframing of the joined bodies, and the same error |
| Lenenc.IntRoundTrip | internal/protocol/lenenc.go:11-62 | every 64-bit integer reads back, consuming exactly its encoding, whatever follows |
| Lenenc.StringRoundTrip | internal/protocol/lenenc.go:29-74 | every string reads back, consuming exactly its encoding |
| Lenenc.PrefixFree | internal/protocol/lenenc.go:11-27 | no encoding is a prefix of the encoding of another integer |
| Lenenc.IntExact | internal/protocol/lenenc.go:34-62 | an integer is read if and only if one of its four forms stands in front, shortest or not; the NULL marker reads as 0 |
| Lenenc.StringExact | internal/protocol/lenenc.go:64-74 | a string is read if and only if it stands in front behind its length |
| Terminators.OKRecognised | rows.go:466-504 | every OK packet a server sends, with or without session tracking, is recognised and its counters, as signed 64-bit numbers, and status are read back |
| Terminators.EOFRecognised | rows.go:427-459 | every EOF packet is recognised, never mistaken for an OK, and its status read back |
| Terminators.ShapesDisjoint | rows.go:427-437 | no packet is both an EOF and a result-set OK |
| Terminators.OKTerminates | rows.go:435-459 | an OK-shaped terminator is one, is no EOF, and says whether more results follow |
| Terminators.FlagsExact | rows.go:466-504 | a packet is taken for an OK with some header and status if and only if it is the header, two counters, the status and two more bytes, and with session tracking nothing more or the counted strings that the status announces |
| Terminators.HandleOKExact | conn.go:407-456 | the first packet of a response is an OK if and only if it is its header and two counters, followed by nothing or the status and at least two more bytes; the counters it reports are theirs |
| Terminators.MoreExact | rows.go:450-459 | more results are announced by the status of a five-byte EOF or of an OK, and by nothing else |
| Terminators.StatusBits | rows.go:455-458 | the announcing bit is 0x0008, the tracking bit 0x4000, in every status |
| Terminators.ConcretePackets | rows.go:412-459 | the classification of packets given byte by byte |
| Terminators.ConcreteOKs | rows.go:466-504 | the counters and status of OK packets given byte by byte |
| TextRows.ParseTextRow | rows.go:543-574 | the cursor loop gives the columns of the packet, Oracle timestamps decoded, or fails as it does |
| TextRows.RowRoundTrip | rows.go:543-574 | parsing an encoded row of NULLs and byte strings gives each column, or the error of the first timestamp that does not decode; it uses up the packet and rejects any nonempty suffix |
| TextRows.ConvertedEach | rows.go:628-633 | a row converts exactly when each of its columns does, to the columns in order |
| TextRows.RowInjective | rows.go:543-574 | different rows have different encodings, NULL distinct from every string |
| TextRows.RowExact | rows.go:543-574 | a packet parses as a row if and only if it spells so many columns, one behind the other and nothing else, and the row is what they convert to |
| TextRows.Untyped | rows.go:561-564 | a column without a type is text |
| TextRows.TextRowIsRow | rows.go:427-504 | no text row is an ERR or EOF packet, and one is taken for the end of the rows if and only if its first column has 2^24 bytes or more and its bytes read as an OK packet, with and without session tracking |
| TextRows.LongColumnEndsRows | rows.go:466-504 | a family of such rows without session tracking |
| TextRows.TrackedLongColumn | rows.go:466-504 | a family of such rows with session tracking |
| BinaryRows.ParseBinaryRow | internal/protocol/binary.go:64-93 | the loop over bitmap and cursor decodes the row, or fails as it does |
| BinaryRows.BitmapBit | internal/protocol/binary.go:68-80 | every bit index lies in the bitmap, and the bit tells whether that column is NULL |
| BinaryRows.TimeRoundTrip | internal/protocol/binary.go:35-58 | a time reads back to the microsecond from each of its encodings |
| BinaryRows.ShortTimePanics | internal/protocol/binary.go:157-181 | reading past the end happens if and only if the length byte is 1 to 3 and fewer than five bytes are left |
| BinaryRows.ShortTimeReadsOn | internal/protocol/binary.go:157-181 | with more bytes behind it, a time with such a length byte takes fields from the next value |
| BinaryRows.ValueRoundTrip | internal/protocol/binary.go:99-155 | a value of every supported type reads back, consuming exactly its bytes; an Oracle timestamp payload reads as the instant it decodes to, or fails with its error |
| BinaryRows.ZonedColumn | internal/protocol/binary.go:131-140 | a TIMESTAMP WITH TIME ZONE column decodes to the civil time less the offset |
| BinaryRows.CivilColumn | internal/protocol/binary.go:131-140 | a TIMESTAMP column decodes in UTC; one with local time zone to an instant if and only if the session zone is known and shows the wall clock at that instant alone |
| BinaryRows.RowRoundTrip | internal/protocol/binary.go:64-93 | for any number of columns, decoding an encoded row delivers every column or the error of the first timestamp that does not decode, and rejects trailing bytes |
| BinaryRows.DeliveredEach | internal/protocol/binary.go:76-91 | a row is delivered exactly when each of its columns is, to the columns in order |
| BinaryRows.RowPanics | internal/protocol/binary.go:76-91 | a row is read past its end if and only if a time column that is reached has such a length byte at the end of the packet |
| BinaryRows.BinaryRowIsRow | rows.go:427-504 | a binary row is never taken for an error or a terminator |
| BinaryRows.WriteNullBitmap | conn_stmt.go:316-326 | setting bits in place yields the bitmap of the NULL arguments |
| BinaryRows.WriteExecute | conn_stmt.go:307-347 | produces the whole payload, or an error when an argument has no binary type |
| BinaryRows.ExecuteRoundTrip | conn_stmt.go:307-347 | a decoder of the payload recovers the statement id and every argument, NULL bits at i |
| BinaryRows.NumberBytes | internal/protocol/binary.go:99-125 | integers of every width and both floating-point types, byte by byte |
| BinaryRows.TypeCodes | internal/protocol/binary.go:99-155 | which of the 256 type codes are times, strings, Oracle timestamps, or not supported |
| BinaryRows.ThreeArguments | conn_stmt.go:307-347 | bitmap and types of the arguments true, NULL and a string, byte by byte |
| BinaryRows.ExecuteBytes | internal/protocol/binary.go:183-200 | the head of a payload, the bytes of true and false, and the type codes of the other arguments |
| Responses.RowsDrain | rows.go:71-89 | draining rows with a budget ends where the rows end, or gives up exactly when there are as many rows as the budget |
| Responses.PartDrains | rows.go:315-371 | draining one OK, ERR or result set takes exactly its packets and tells whether another part follows |
| Responses.ChainDrains | rows.go:298-371 | draining a response takes exactly the whole chain; it fails exactly when some result set is over the limits |
| Responses.ColumnRoundTrip | rows.go:506-537 | a column definition as a server writes it gives its name, character set, length, type, flags and decimals |
| ResponseRuns.QueryOnChain | rows.go:197-263 | the head of a query reads to the rows of the first result set, or through a chain that begins with OK or ERR |
| ResponseRuns.NextOnPending | rows.go:91-138 | fetching from any rest of a response gives the next row, the end after draining what follows, or the server's error |
| ResponseRuns.CloseOnPending | rows.go:49-89 | closing drains exactly the rest of the response |
| ResponseRuns.RequestStep | conn.go:239-279 | from an idle connection a request leads to a retired connection exactly under the stated condition, else to an idle one or to one streaming exactly this response |
| ResponseRuns.CursorStep | rows.go:49-138 | fetching and closing retire a streaming connection exactly under the stated condition, else move one row on or end exactly at the end of the response |
| ResponseRuns.StepInSync | rows.go:71-138 | every operation keeps the connection retired or exactly in sync |
| ResponseRuns.RunInSync | rows.go:71-371 | after every run of queries, executions, fetches and closes the connection is retired, idle with nothing unread, or has exactly the rest of one response to read |
| ResponseRuns.HarmlessRun | rows.go:71-371 | a run whose replies stay within the drain limits never retires the connection |
| ResponseRuns.FetchesDeliver | rows.go:91-138 | the k-th fetch delivers the k-th row that the server sent, for as many as there are |
| ResponseRuns.FetchAfterRows | rows.go:91-138 | the fetch after the last row reports the end if and only if the rows are complete and every part that follows is within the limits and without an error; it breaks the connection if and only if some part is over them |
| ResponseRuns.ErrAnywhere | conn.go:317-341 | wherever an ERR packet stands, it is the server's error if it has room for a number, and otherwise breaks the connection |
| ResponseRuns.MalformedColumn | rows.go:227-243 | a column definition that does not parse breaks the head of a query |
| Truncations.CutResponse | rows.go:298-371 | draining a response of which only the first packets arrive fails, wherever it is cut |
| Truncations.CutRows | rows.go:71-89 | so does closing rows of which not everything arrives |
| Truncations.CutQuery | rows.go:197-263 | a query with such an answer fails, or hands out rows, and what is there of them is cut short |
| Truncations.CutFetch | rows.go:91-138 | fetching from such rows gives those that are there, and then fails |
| Conns.Conn.DrainRowPackets | rows.go:71-89 | the loop ends in the state of the drain function, retired on any desynchronisation |
| Conns.Conn.DrainRemainingResults | conn_stmt.go:152-158 | drains the whole chain that follows |
| Conns.Conn.ReadQueryResult | rows.go:197-263 | reads the head of a response and leaves the rows in the stream |
| Conns.Conn.QueryContext | conn.go:163-186 | does nothing when the arguments cannot be interpolated; otherwise sends the interpolated text, unless the connection is of no use; takes the mutex once and holds it on return exactly when streaming rows are returned, with the columns of the response; reports success, a server error or a broken connection as the query step and the zone update do; packets are consumed as the query step says |
| Conns.Conn.ExecContext | conn.go:188-205 | does nothing when the arguments cannot be interpolated; otherwise sends the interpolated text, unless the connection is of no use; takes and releases the mutex once on every path; returns the counters and the success, server error or broken connection of the execution step and the zone update; packets are consumed as that step says |
| Conns.Stmt.QueryContext | stmt.go:60-84 | the same hand-over, columns and status for a prepared statement, which follows the zone of its own text and arguments; sends the one payload of its arguments; a closed statement or an unsupported argument sends nothing |
| Conns.Stmt.ExecContext | stmt.go:41-58 | takes and releases the mutex once; sends the one payload of its arguments; counters, status and packets as the execution step says |
| Conns.Rows.Finish | rows.go:63-69 | releases the mutex exactly when it was held for these rows |
| Conns.Rows.Next | rows.go:91-138 | hands out the values of a row, reports the end, a server error or a broken connection, exactly as the next packet and what follows it say; keeps the mutex while rows may follow and releases it once with the call that ends them |
| Conns.Rows.Close | rows.go:49-61 | drains what is left, reports what the drain came to, and releases the mutex if it was held; closing again does nothing |
| Conns.Rows.Consume | rows.go:49-138 | over every sequence of Next and Close calls the mutex is released exactly once, the values handed out are those of the rows the run delivers, and the connection ends in the state of the run |
| SqlLexer.CountPlaceholders | params.go:112-169 | the six-state loop counts the placeholders of the character-by-character scanner |
| SqlLexer.ScanConcat | params.go:112-169 | scanning and counting distribute over concatenation |
| SqlTokens.TokensScan | params.go:112-169 | in a template written as plain text, quoted text in three quotes, line comments of both kinds and block comments, the placeholders are the question marks of the plain text, and nothing stays open |
| SqlTokens.OpenKeeps | params.go:112-169 | a line comment that is not ended hides every question mark behind it |
| Params.InterpolateParams | params.go:13-110 | succeeds exactly when the placeholder count equals the number of arguments and each has a literal, and returns the template with literals in place of placeholders |
| Literals.LiteralMeans | params.go:182-211 | a reader of SQL literals recovers the argument from every literal: integers from decimal text, byte strings from hexadecimal, strings from doubled quotes, formatted timestamps, truth values and NULL |
| Literals.LiteralsDiffer | params.go:182-211 | different values of one kind have different literals |
| Literals.MinusExact | params.go:189-190 | the text of an integer begins with a minus if and only if the integer is negative |
| Literals.LiteralTexts | params.go:182-211 | literals of every kind, character by character |
| Params.QuotedScan | params.go:209-211 | a quoted string of any content is skipped as one string from any unquoted scanner state |
| Params.LiteralScan | params.go:182-207 | every literal leaves the scanner outside quotes and comments and holds no placeholder, unless a minus sign meets a minus sign |
| Params.StructurePreserved | params.go:13-110 | at every prefix the output scans like the template, with no placeholder left, if and only if no placeholder behind an unquoted minus receives a literal that begins with one |
| Params.OutputRescans | params.go:13-169 | under that condition re-scanning the output finds no placeholder and ends in the template's scanner state |
| Params.ClashBreaks | params.go:43-67 | the first such clash changes the scanner state of the prefix |
| Params.NegativeAfterMinus | params.go:43-67 | the concrete template and argument that lose the structure |
| TimeZoneSql.StripSqlComments | session_timezone.go:160-239 | the index loop with two quote flags computes the stripping function |
| TimeZoneSql.StripCleans | session_timezone.go:160-239 | stripped text has no unquoted block comment opener and no unquoted hash sign, and its quoted regions are those of the query byte for byte |
| TimeZoneSql.StripTwice | session_timezone.go:160-239 | stripping twice is stripping once if and only if no two unquoted dashes stand directly before a comment |
| TimeZoneSql.StripTwiceDiffers | session_timezone.go:207-225 | a family of texts for which it is not |
| TimeZoneSql.UnterminatedBlock | session_timezone.go:207-216 | a block comment that does not end leaves a blank and its last character |
| TimeZoneSql.AssignmentFromQuery | session_timezone.go:95-141 | the recogniser with its quote loop computes the recognition function |
| TimeZoneSql.FindClosing | session_timezone.go:121-135 | finds the closing quote, doubled quotes skipped |
| TimeZoneSql.RecognisedIsMutation | session_timezone.go:95-158 | every recognised assignment is also classified as a mutation |
| TimeZoneStatements.UndoubleDouble | session_timezone.go:132-132 | making doubled quotes single undoes doubling them |
| TimeZoneStatements.StatementRecognised | session_timezone.go:95-141 | for every case variant, letter by letter and by code points, of the words of a head, any white space and comments, either quote style or a parameter, semicolon and trailing comments, the recogniser returns exactly what is assigned |
| TimeZoneStatements.SpelledHeads | session_timezone.go:97-116 | every case variant of the words of a head is a head to the recogniser |
| TimeZoneStatements.AssignedExact | session_timezone.go:117-140 | the right-hand side is read as an assignment if and only if it is the parameter, a value in either quotes with its quotes doubled, or a bare value |
| TimeZoneStatements.RecognisedExactly | session_timezone.go:95-141 | a query is recognised with an assignment if and only if, comments and blanks aside, it is one of the six heads, the first equals sign and what writes that assignment |
| SessionZones.OffsetParses | session_timezone.go:28-70 | every offset from -12:59 to +13:00 has a text that parses to it |
| SessionZones.ParsedZone | session_timezone.go:28-70 | whatever parses is such an offset, with that text as its canonical form (or -00:00) |
| SessionZones.CanonicalParses | session_timezone.go:28-70 | the canonical text parses to the same zone |
| SessionZones.NamesParse | session_timezone.go:28-36 | UTC and Z in any letter case are offset 0 |
| SessionZones.OwnStatementRecognised | session_timezone.go:86-141 | the driver's own statement is recognised with its value |
| SessionZones.LowerRecognised | session_timezone.go:95-158 | a statement in small letters is recognised with its value and is a mutation |
| SessionZones.ConfigureMirrors | conn_handshake.go:65-84 | accepted configuration leaves server and mirror at the configured zone |
| Conns.Conn.UpdateFromQuery | session_timezone.go:250-303 | sets the location, leaves it alone, or clears it and retires the connection, as the reading of the statement says |
| Conns.PreparedZone | session_timezone.go:250-294 | a prepared assignment sets the zone that its text or byte argument spells, unchanged |
| Conns.Tx.Finish | tx.go:18-33 | a finished handle sends nothing; otherwise the statement is sent, and only an accepted statement ends the transaction |
| Conns.Conn.BeginTx | conn.go:117-131 | one transaction at a time |
| Conns.Conn.Configure | conn_handshake.go:65-84 | sends and records the configured zone, or decodes as UTC for other tenants |
| Conns.EmptySetting | session_timezone.go:72-84 | a setting that is empty or blank means offset 0 |
| Conns.OffsetSetting | session_timezone.go:72-84 | any other setting means the offset it spells |
| Conns.Conn.Open | conn_handshake.go:47-84 | sends the initialisation statements in order and then its own; a connection that is handed out has the configured zone on both sides, whatever the initialisation statements did |
| Conns.Conn.ResetSession | conn.go:92-111 | sends a rollback exactly when a transaction is open, then its own statement, which restores the configured zone; or retires the connection |
| ZoneServers.ParsedMeaning | session_timezone.go:28-70 | a zone text the driver parses means to the server what it means to the driver |
| ZoneServers.CommandIgnored | session_timezone.go:143-158 | no query whose first words are neither a head nor go on after one is taken for a mutation, whatever comments stand between them and whatever ends them |
| HeadReading.MutationDecided | session_timezone.go:143-158 | a query of words, gaps and anything behind them is classified as a mutation if and only if the words go on after a head, or are one and are followed by a gap, an equals sign or nothing |
| HeadReading.SeenExactly | session_timezone.go:143-225 | a written assignment is classified as a mutation if and only if no line comment without a blank after its dashes stands before the last word of the head or directly behind it |
| HeadReading.SeenButUnread | session_timezone.go:95-158 | an assignment whose head is seen retires the connection when such a comment or anything visible follows |
| ZoneServers.AnnouncedExactly | session_timezone.go:143-225 | a query of several statements is classified as a mutation if and only if the head of its first statement is seen |
| ZoneServers.ReadExactly | session_timezone.go:95-141 | an assignment whose head is seen is read with what it assigns when it stands alone, and retires the connection otherwise |
| ZoneServers.BatchMirrors | conn.go:239-279 | after a query of one or more statements, each executed by its form until one fails, the connection is retired or has the server's zone if and only if the zone is what it was, or no error was seen and the query is classified as a mutation, or the connection broke |
| ZoneServers.ZoneLost | conn.go:239-279 | three queries after which a usable connection has the wrong zone: the assignment second, followed by a statement that fails, or behind a comment without a blank |
| ZoneServers.VerdictIsStep | conn.go:239-279 | the verdict on an answer retires the connection exactly when the response machine does |
| ZoneServers.MirrorOfServer | session_timezone.go:250-303 | over every run of queries, transactions and pool resets, however answered, the connection is retired or has the server's zone throughout if and only if that condition holds at every query |
| ZoneServers.EndTxExact | tx.go:18-33 | only an accepted statement ends a transaction, and it changes nothing else |
| ZoneServers.RecycleExact | conn.go:92-111 | a reset leaves a usable connection if and only if the server accepts the rollback, if one is due, and the zone; the zone is then the configured one on both sides |
| QuerySafety.SafeExactly | conn.go:239-279 | by its form alone: a query keeps every usable session right or retires it, whatever the answer, if and only if it has no assignment, or its only one is its last statement and the query is classified as a mutation (statements that are no assignments leaving the zone alone) |
| Requests.AnsweredPackets | conn.go:239-279 | the same condition for the packets of the answer as the driver reads them |
| Requests.SentReadsPlain | internal/protocol/packet.go:200-268 | packets sent one after the other are read one after the other, and the reader stops behind the last |
| Requests.SentReadsFramed | internal/protocol/packet.go:83-152 | the same in OB 2.0 mode, however the server cuts the packets into frames |
| Requests.AnswerStatus | conn.go:258-279 | a statement succeeds if and only if every part of its answer is within the limits, none fails and the zone could be followed; a server error is reported if and only if some part fails |
| Requests.AnswerCounters | conn.go:258-279 | the counters of a statement are those of the OK that answers it |
| Requests.AnswerColumns | rows.go:197-263 | the columns of a result set are those its definitions spell |
| Requests.FetchedValues | rows.go:91-138 | so many fetches hand out the values of so many rows that the server sent, in order |
| Requests.TextRowDecodes | rows.go:119-137 | the values of a text row are its columns, converted |
| Requests.BinaryRowDecodes | rows.go:119-137 | the values of a binary row are its columns, as delivered |
| Calendar.MonthLengths | internal/protocol/oracle_time.go:161-163 | day 0 of the next month is the usual last day of the month |
| Calendar.NanosIncrease | internal/protocol/oracle_time.go:82-84 | instants are strictly increasing in the wall clock |
| Calendar.SameDayDistance | internal/protocol/oracle_time.go:82-84 | on one day, readings are as far apart as their hours, minutes, seconds and nanoseconds |
| Calendar.MidnightFollows | internal/protocol/oracle_time.go:82-84 | a day is 24 hours: the count goes on at midnight, over the ends of months, years and February |
| Calendar.NanoFollows | internal/protocol/oracle_time.go:82-84 | the next reading of the clock counts exactly one more |
| Calendar.CountBegins | internal/protocol/oracle_time.go:82-84 | the count begins with year 1, and the Unix epoch is 719162 days later |
| Calendar.NanosInjective | internal/protocol/oracle_time.go:135-143 | wall clocks agree in every field exactly when they are the same instant at offset zero |
| ZoneInverse.InLocation | internal/protocol/oracle_time.go:82-133 | collecting offsets and matches returns the candidate when it shows the wall clock and no nearby offset gives another instant, and an error otherwise |
| ZoneInverse.NearbyFinds | internal/protocol/oracle_time.go:93-107 | any instant with the candidate's wall clock has one of the offsets that are tried |
| ZoneInverse.ResolvesUnique | internal/protocol/oracle_time.go:82-133 | for every zone whose periods are longer than its offset differences, the search succeeds if and only if the candidate is the only instant with the wall clock |
| ZoneInverse.RepeatedRejected | internal/protocol/oracle_time.go:124-132 | a wall clock shown twice is an error whichever candidate was chosen |
| OracleTime.ZonePairs | internal/protocol/oracle_time.go:165-185 | accepted hour and minute bytes correspond one to one with the offsets from -12:59 to +14:00 |
| OracleTime.ZoneExact | internal/protocol/oracle_time.go:165-207 | the zone part parses to an offset if and only if it is the offset's bytes and two counted strings, with nothing missing or trailing |
| OracleTime.CivilReads | internal/protocol/oracle_time.go:37-64 | the twelve bytes of every civil time in years 1 to 9999 read back |
| OracleTime.CivilExact | internal/protocol/oracle_time.go:37-64 | twelve bytes read as a wall clock if and only if they are its fields, all in range, with a year made up of two nonnegative signed bytes |
| OracleTime.ZonedInstant | internal/protocol/oracle_time.go:26-80 | TIMESTAMP WITH TIME ZONE decodes to the count of the wall clock less the offset |
| OracleTime.PlainInstant | internal/protocol/oracle_time.go:26-80 | TIMESTAMP decodes to the count of the wall clock |
| OracleTime.SameInstant | internal/protocol/oracle_time.go:26-80 | a wall clock at an offset and the clock of UTC moved minute by minute by that offset decode to the same instant, over the ends of days, months and years |
| OracleTime.SameLocally | internal/protocol/oracle_time.go:26-80 | in a session whose zone is an offset, the local kind of that clock decodes to that instant too |
| Requests.SessionInstant | session_timezone.go:28-70 | a connection whose zone was read from an offset text decodes a local timestamp to the instant at which a clock that many minutes away from UTC shows it |
| OracleTime.PlainExact | internal/protocol/oracle_time.go:26-80 | a TIMESTAMP decodes to an instant if and only if it is twelve bytes that spell that wall clock |
| OracleTime.ZonedExact | internal/protocol/oracle_time.go:26-80 | with time zone: if and only if a wall clock and a zone part spell that instant |
| OracleTime.LocalInstant | internal/protocol/oracle_time.go:26-80 | TIMESTAMP WITH LOCAL TIME ZONE decodes to an instant if and only if the session zone is known and shows the wall clock at that instant alone |
| OracleTime.LocalExact | internal/protocol/oracle_time.go:26-80 | the same for every payload: twelve bytes that spell a wall clock which the known session zone shows at that instant alone |
| OracleTime.OtherTypes | internal/protocol/oracle_time.go:26-80 | no other type decodes |
| OracleTime.ZonedOrder | internal/protocol/oracle_time.go:26-80 | at one offset, decoded instants keep the strict order of the wall clocks |
| OracleTime.DecodedWall | internal/protocol/oracle_time.go:26-133 | whatever decodes, of any type and payload, shows the payload's wall clock in the location it is read in |

## Left out

- Compressed mode: zlib is foreign to the model.
- Dialling, TLS, deadlines, cancellation, tracing and write errors: a socket is a pair of byte streams, and a failing
  read is the end of the stream.
- The authentication exchange, password hashes and the handshake packet; whether the tenant is an Oracle one is a
  parameter.
- OUT parameters, bulk execution, preparing, resetting and closing statements, Ping: the sync and lock theorems are
  about queries, executions, fetches and closes.
- Session-state tracking in OK packets (current database, OB 2.0 confirmation) beyond skipping it correctly.
- Converting text to numbers and MySQL times, and formatting floating-point numbers: a rendered number is any text of
  the characters such numbers have, and a text column of such a type stays text, so that its errors are not modelled.
- Conns.Rows.Next: a packet on which the binary row parser would read past its end counts as a row that does not parse;
  `BinaryRows.RowPanics` says which these are.
- Numbers and messages of server errors: a call reports that there was one.
- The command byte in front of a query's text and the bytes of that text: a command is the text or the execute payload.
- Non-ASCII text: letter case and white space are those of ASCII.
- Params.StructurePreserved: keeps quotes and comments apart, not single tokens; a literal that directly follows a
  quoted string or a word of the template can continue it.
- Conns.Stmt.QueryContext: arguments with names or of the driver's wrapper types are not modelled.
- ZoneServers.BatchMirrors: a query that begins with another statement than an assignment may do anything to the zone,
  but must not be one that the driver reads an offset from: unquoted zone values and statements with unterminated
  comments. `#` begins a comment for the server as it does for both scanners of the driver. Rows of a query are judged
  once the whole answer is there, not while they are still streamed.
- ZoneInverse.ResolvesUnique: how the date constructor chooses among candidates is a parameter; in `OracleTime` it is
  only assumed to show the wall clock when some instant does, as its documentation promises.
- BinaryRows.ValueRoundTrip: IEEE numbers stay bytes, and a decoded MySQL time is the fields of the value before a
  location is applied.
- DSN parsing, presets, capability names, bulk SQL building and the command-line tool.
