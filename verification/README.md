# Verification of the HTTP server's codecs, JSON library and request tables

This project models the hard core of the server in Dafny and proves properties of it. Code that
works on buffers, tables and lists in place is modelled by methods on arrays and classes; each is
proved equal to a function of its inputs or of the old state, and the properties are lemmas about
those functions. `dafny verify dfyconfig.toml` checks everything.

Bytes are integers from 0 to 255. A C string is a byte sequence without a zero; where code reads or
writes the terminator, the array holds it. Bit operations are written out on integers (`Bytes`).

| part | modules |
|---|---|
| JSON object table: probing, removal by backward shift, growth | `ItemList`, `TableModel`, `TableRemoval`, `ObjectTable` |
| JSON text: strings, UTF-8, numbers, reader, printer | `JsonString`, `JsonUtf8`, `JsonNumber`, `JsonText`, `JsonReader`, `JsonWriter`, `JsonRoundTrip`, `JsonGrammar`, `JsonAccepted`, `JsonPrinted`, `JsonDecimal`, `JsonLayout` |
| JSON trees: dotted paths, comparison, copies | `JsonTree`, `ObjectTree` |
| WebSocket frames: writer, masking, reader with its queue | `WebSocketModel`, `WebSocket` |
| Message input: chunked bodies, end of the header | `Socket`, `ChunkedModel`, `ChunkedBody`, `HeaderScan` |
| URIs and paths: cleaning, percent coding, patterns, handlers | `UriModel`, `UriClean`, `UriLaws`, `UrlCodec`, `Glob`, `GlobLaws`, `HandlerModel`, `Handlers`, `HandlerLaws` |
| WebDAV locks and server-side includes | `LockModel`, `WebDav`, `LockLaws`, `Ssi`, `SsiLaws` |
| Senders and receivers put together | `Delivery` |

The modules whose names end in `Laws`, and `JsonGrammar`, `JsonDecimal` and `JsonLayout`, say what the functions of the
model mean in words of their own: grammars, patterns, clock times and byte values are spelled out there, without the
functions they are about.

The network is a byte sequence that arrives in pieces of any positive size, about which nothing is
assumed (`Socket.Socket.Read`); a result that mentions only the bytes therefore holds for every way
of cutting them up. Callbacks of applications, files and clocks are parameters.

## Where the code does not do what it promises

Each entry names the lemma or contract that states it. Those that say "exactly" are proved in both directions.

- A JSON object can store a name twice: `json_object_add` computes `found` and does not use it.
  `ObjectTable.JsonObject.Add` leaves a valid table exactly when the table was valid and the name new,
  `ObjectTable.RepeatedAdd` is a concrete case, and a removal from such a table never makes it valid
  again (`ObjectTable.JsonObject.Remove`). The parser therefore accepts repeated names, and the table it fills is
  valid exactly when the text repeats no name in the object (`JsonReader.ParseObjectAt`).
- Comparing a tree with any other one by `json_value_equals` is symmetric exactly when no object in it repeats a
  name, or when it holds an infinite number or one that is none and so equals nothing (`JsonTree.SymmetricIff`).
  `JsonTree.EqualsOneSided` is a concrete pair.
- A printed tree reads back exactly when it nests at most 2048 deep (`JsonRoundTrip.PrintedTextParses`). What was
  read from any accepted text survives printing and reading, exactly unless the text starts, behind white space, with
  a minus sign that starts no number (`JsonRoundTrip.ParsedTextSurvives`, `JsonNumber.LoneMinus`).
- The reader accepts more than RFC 8259: `JsonGrammar.ValueText` defines both grammars side by side. Every text of the
  RFC's is read as its tree exactly when the library accepts its numbers and it nests at most 2048 deep
  (`JsonGrammar.StandardTextReads`). A text is accepted exactly when it is, up to where reading stops, a text of the
  library's grammar and nests at most 2048 deep, or starts with a lone minus sign (`JsonAccepted.AcceptedTexts`).
  Beyond the RFC are vertical tab and form feed as white space, number forms such as `1.`, a comma behind the last
  element or member, and anything behind the value. `JsonRoundTrip.LooseTextsParse` and
  `JsonRoundTrip.LoneMinusInArray` are concrete texts.
- What is printed is a text of RFC 8259 exactly when every number in the tree is one of its numbers
  (`JsonPrinted.PrintIsTextIff`): the other number forms are printed as they were read.
- Of the numbers of section 6 of RFC 8259, `is_decimal` rejects exactly those written with `0E`, `-0e` or `-0E`
  at the front (`JsonRoundTrip.JsonNumbersRejected`). Of the others, exactly those are refused that lie at half a unit
  behind the largest double or beyond (`JsonDecimal.NumberIsReadIff`).
- The reader stores number lexemes of any length, but the size pass writes each into a buffer of 64 bytes. It writes
  as many bytes of it as the longest lexeme has, so it stays inside exactly when no lexeme is longer than that
  (`JsonWriter.SerializationSize`); `JsonRoundTrip.LongLexemeIsRead` gives numbers that are read and do not fit.
- `json_serialize_to_buffer` leaves the byte behind a bare number as it was, without a terminator
  (`JsonWriter.SerializeToBuffer`).
- Unescaping a string looks behind its closing quote exactly when it comes to a `\u` with at most two bytes behind it,
  be it the second one of a surrogate pair (`JsonReader.ProcessString`, `JsonString.LooksPastIff`);
  `JsonString.LoneEscapeLooksPast` gives texts. Such a string is refused whatever stands there
  (`JsonString.PastIsRefused`, `JsonReader.QuoteCutsHex`).
- With `|`, `http_match_prefix` returns -1 although some alternative matches exactly when the last alternative
  matches no prefix, some other one the empty prefix, and none more (`Glob.HiddenEmptyMatch`;
  `Glob.HiddenEmptyMatchHappens` is a concrete case).
- A WebDAV lock request is answered with 200 without any lock being stored, and drops the oldest lock,
  exactly when every slot is in use for another path (`LockModel.GrantedIsHeld`; a full table in
  `LockModel.EleventhLockIsNotHeld`). On a path with one lock at most, a request leaves two exactly when it refreshes
  a lock while a slot is free (`LockModel.RefreshMayStoreTwice`, `LockModel.RefreshStoresTwice`).
  Unlocking changes nothing (`WebDav.Locks.UnlockFile`).
- `url_decode_in_place` leaves a text with a blank or control character decoded up to there and unchanged from the
  write position on (`UrlCodec.DecodeInPlace`).
- In patterns `?` matches a slash and text behind `$` is ignored; `Glob.Matches` is defined accordingly.

## Model

| member | source | states |
|---|---|---|
| ItemList.LookupIsMapGet | src/parson.c:585-601 | looking a name up in the items of an object is looking it up in the finite map they stand for |
| ItemList.PutRepresents | src/parson.c:2076-2117 | setting a value updates the map at that name and nowhere else |
| ItemList.RemoveRepresents | src/parson.c:603-661 | removing a name deletes it from the map, although the last item moves |
| ItemList.RunRepresents | src/parson.c:2076-2117 | over every run of sets, removals and clears the items stand for the map the run yields |
| Bytes.MaskIsModulo | src/parson.c:522-551 | masking with a power of two less one is the remainder |
| TableModel.EmptyCellExists | src/parson.c:422-462 | a table whose item capacity is below its cell capacity has an empty cell |
| TableModel.ProbeCannotExhaust | src/parson.c:522-551 | no probe sees a whole table without meeting the name or an empty cell |
| TableModel.ProbeStops | src/parson.c:522-551 | the cell where a probe stops is the one the name belongs to, or proves it absent |
| TableModel.ProbeDecides | src/parson.c:522-551 | a probe finds a cell exactly when the name is stored |
| TableModel.AppendKeepsLinked | src/parson.c:553-583 | a new last item keeps cells, back pointers and probe paths right; the table is valid afterwards exactly when it was and the name was new |
| TableModel.OverwriteItems | src/parson.c:2076-2117 | overwriting the value in a found cell is a put on the items |
| TableModel.ValidByItems | src/parson.c:492-520 | two linked tables with the same items are both valid or both not |
| TableRemoval.MustMoveIffHoleOnPath | src/parson.c:603-661 | the cyclic test of the shift loop holds exactly when the hole lies on the item's probe path |
| TableRemoval.SwapOpensHole | src/parson.c:603-661 | after the swap with the last item the table is valid but for one hole |
| TableRemoval.MoveKeepsHoled | src/parson.c:603-661 | moving an item back moves the hole and keeps everything else |
| TableRemoval.SkipKeepsHoled | src/parson.c:603-661 | an item whose path avoids the hole may stay |
| TableRemoval.CloseKeepsValid | src/parson.c:603-661 | at the next empty cell the hole can be cleared and the table is valid |
| TableRemoval.OrphanMeansInvalid | src/parson.c:553-583 | an item no cell points to keeps the table from being valid |
| ObjectTable.HashStr | src/parson.c:386-405 | the loop computes the hash function of the model |
| ObjectTable.JsonObject.constructor | src/parson.c:422-462 | a new object is valid and empty |
| ObjectTable.JsonObject.GetCellIx | src/parson.c:522-551 | returns the name's cell, or the first empty cell of its probe path |
| ObjectTable.JsonObject.GetValue | src/parson.c:585-601 | returns the last value stored under a name, or nothing |
| ObjectTable.JsonObject.Add | src/parson.c:553-583 | appends one item; the object stays valid exactly when the name was new |
| ObjectTable.JsonObject.SetValue | src/parson.c:2076-2117 | is a put on the items and keeps validity |
| ObjectTable.JsonObject.SwapWithLast | src/parson.c:603-661 | the five arrays after the swap |
| ObjectTable.JsonObject.ShiftBack | src/parson.c:603-661 | the backward shift ends in a valid table exactly when the names were distinct, and moves no item |
| ObjectTable.JsonObject.Remove | src/parson.c:603-661 | removes exactly the named item, reports whether it was there, and keeps validity both ways |
| ObjectTable.JsonObject.Clear | src/parson.c:2283-2300 | the object is valid and empty |
| ObjectTable.JsonObject.GrowAndRehash | src/parson.c:492-520 | same items in the same order with twice the cells and room for one more |
| ObjectTable.RunOps | src/parson.c:2076-2117 | an object driven through any run is valid, stands for the run's map, and its count is the map's size |
| ObjectTable.RepeatedAdd | src/parson.c:553-583 | a concrete repeated name: two items, lookup sees the second, the object is not valid |
| JsonString.UnescapeEscape | src/parson.c:1268-1337 | unescaping the escaped form of any byte string gives it back, zero bytes included |
| JsonString.LeftUnescaped | src/parson.c:1268-1337 | exactly the quote, the backslash, control characters and, on request, the slash are escaped |
| JsonString.SkipEscape | src/parson.c:763-781 | the quote scanner stops at the closing quote of an escaped string |
| JsonString.QuotedRoundTrip | src/parson.c:889-898 | a printed string reads back as itself and reading stops right behind it |
| JsonUtf8.EscapedCodePointReads | src/parson.c:783-827 | every escaped code point, as four digits or as a surrogate pair, is read as that code point; a lead surrogate exactly with the digits of a trail surrogate behind it, a trail surrogate never |
| JsonUtf8.EitherCaseReads | src/parson.c:266-297 | four hexadecimal digits in either case read as the number they spell |
| JsonUtf8.OtherDigitsFail | src/parson.c:266-297 | any other character among the four makes them fail |
| JsonUtf8.EncodedExamples | src/parson.c:783-827 | the UTF-8 bytes of code points of each length, as RFC 3629 gives them |
| JsonUtf8.EncodedSequenceVerifies | src/parson.c:314-354 | the bytes written for a code point verify as that code point |
| JsonUtf8.VerifiedIsEncoded | src/parson.c:314-354 | bytes that verify are the one encoding of their code point |
| JsonUtf8.UnescapeKeepsUtf8 | src/parson.c:832-887 | unescaping valid UTF-8 gives valid UTF-8 |
| JsonNumber.StrtodTakesNumber | src/parson.c:1075-1084 | of a printed number, exactly the lexeme is taken |
| JsonNumber.TakesLexeme | src/parson.c:1075-1084 | a lexeme that is taken as a whole is taken from in front of any delimiter, too |
| JsonNumber.StoredIsReadable | src/parson.c:1075-1084 | what the reader stores for a number is taken again as a whole, but for the empty lexeme of a minus sign that starts no number |
| JsonRoundTrip.JsonNumbersRejected | src/parson.c:368-384 | which numbers of RFC 8259 `is_decimal` rejects |
| JsonDecimal.SpelledIsJsonNumber | src/parson.c:1075-1084 | every sign, digits, fraction and exponent put together as section 6 of RFC 8259 has them is a number of the grammar |
| JsonDecimal.JsonNumberIsSpelled | src/parson.c:1075-1084 | and every number of the grammar is put together so |
| JsonDecimal.MagnitudeOfText | src/parson.c:1691-1694 | a number is worth its digits as one integer, scaled by ten to its exponent less the digits behind the dot |
| JsonDecimal.WholeNumbers | src/parson.c:1691-1694 | the decimal text of an integer is worth the integer, behind a minus sign its opposite |
| JsonDecimal.DotMoves | src/parson.c:1691-1694 | moving the dot one digit to the right makes a number ten times as large |
| JsonDecimal.ExponentScales | src/parson.c:1691-1694 | so does an exponent one larger; a negative one makes it a tenth; the exponent zero changes nothing |
| JsonDecimal.NumberIsReadIff | src/parson.c:1675-1700 | a number of RFC 8259 is read, as a whole text, exactly unless it is written with a zero and an exponent as `is_decimal` rejects it or lies at half a unit behind the largest double or beyond |
| JsonDecimal.LimitInDecimal | src/parson.c:1692-1695 | that limit lies between 10^308 and 10^309 |
| JsonDecimal.ShortNumbersAreRead | src/parson.c:1675-1700 | every number without an exponent and with at most 308 digits before the dot is read |
| JsonDecimal.LongNumbersAreRefused | src/parson.c:1692-1695 | none with 310 digits or more before the dot is |
| JsonNumber.NothingTakenIff | src/parson.c:1075-1084 | a text that starts like a number yields no number exactly if it is a minus sign without a digit, a dot and digit, `inf` or `nan` behind it |
| JsonRoundTrip.LoneMinusIff | src/parson.c:1342-1350 | a text is read as the empty number exactly if it starts, behind white space, with such a minus sign |
| JsonRoundTrip.MarkIsSkipped | src/parson.c:1342-1350 | a byte order mark in front of a text changes nothing |
| JsonRoundTrip.LooseTextsParse | src/parson.c:998-1084 | concrete texts beyond RFC 8259 that the reader accepts, and which minus signs are among them |
| JsonRoundTrip.LoneMinusInArray | src/parson.c:998-1045 | a minus sign that starts no number is refused inside an array, as the cursor stays on it |
| JsonRoundTrip.LongLexemeIsRead | src/parson.c:1675-1710 | numbers of every length are read and stored, whether or not they fit the number buffer |
| JsonRoundTrip.ParsedIsSound | src/parson.c:900-1045 | every value that is read has numbers that can be read back and nests no deeper than allowed, but for a lone minus sign |
| JsonRoundTrip.ParsedTextSurvives | src/parson.c:1342-1350 | printing what was read from an accepted text and reading that gives the same tree, if and only if the text does not start, behind byte order mark and white space, with a minus sign that starts no number |
| JsonRoundTrip.PrintParses | src/parson.c:900-1045 | the print of any tree, at any level and before any closing text, parses back to it exactly when it is not nested too deep |
| JsonRoundTrip.ArrayParses | src/parson.c:998-1045 | the same for arrays, from the opening bracket on |
| JsonRoundTrip.ObjectParses | src/parson.c:925-996 | the same for objects, member order kept |
| JsonRoundTrip.PrintedTextParses | src/parson.c:1342-1350 | reading the compact or pretty print of any tree whose numbers the reader can store gives the tree and uses up the text, if and only if it nests at most 2048 deep |
| JsonGrammar.QuotedReads | src/parson.c:889-898 | a string of the RFC's grammar is read as the bytes it spells, and reading stops behind it |
| JsonGrammar.ValueReads | src/parson.c:900-923 | a value spelled in either grammar is read as its tree and to its end, exactly if its numbers are accepted and it is not nested too deep |
| JsonGrammar.ElementsRead | src/parson.c:998-1045 | so are the elements of an array, white space and, for the library, a last comma included |
| JsonGrammar.MembersRead | src/parson.c:925-996 | and the members of an object, in their order |
| JsonGrammar.StandardTextReads | src/parson.c:1342-1350 | every text of RFC 8259 is read as its tree with nothing but white space left, if and only if its numbers are accepted (which ones: `JsonDecimal.NumberIsReadIff`) and it nests at most 2048 deep |
| JsonAccepted.QuotedIsText | src/parson.c:889-898 | what is read as a string was spelled as a string of the RFC's grammar |
| JsonAccepted.BareIsText | src/parson.c:900-923 | what is read as a value was spelled as one in the library's grammar |
| JsonAccepted.AcceptedTexts | src/parson.c:1342-1350 | a text is read as a tree up to some place if and only if it spells the tree up to there in the library's grammar and nests at most 2048 deep, or is a lone minus sign |
| JsonPrinted.PrintIsTextIff | src/parson.c:1118-1266 | either print of a tree is a text of it in a grammar if and only if its numbers are spelled as that grammar has them |
| JsonPrinted.StandardStaysStandard | src/parson.c:1118-1266 | what was read from a text of RFC 8259 is printed as a text of RFC 8259 |
| JsonLayout.CompactIsTight | src/parson.c:1118-1266 | the compact print has no white space outside strings |
| JsonLayout.PrettyPrint | src/parson.c:1118-1266 | the pretty print has each element and member on lines of its own, four spaces to the right of its container, a comma behind all but the last, a colon and a space behind names |
| JsonWriter.AppendEscaped | src/parson.c:1268-1337 | the escaping loop writes the escaped form and touches nothing beyond it and its terminator |
| JsonWriter.SerializeString | src/parson.c:1268-1337 | writes the quoted escaped string; with no buffer only counts; an unquoted text without escapes gets no terminator |
| JsonWriter.SerializeToBufferR | src/parson.c:1118-1266 | returns the length of the print of any value and, with a buffer, writes exactly the print; without one, as much of the number buffer as the longest lexeme has |
| JsonWriter.SerializeArray | src/parson.c:1129-1160 | the same for arrays |
| JsonWriter.SerializeObject | src/parson.c:1161-1209 | the same for objects |
| JsonWriter.SerializationSize | src/parson.c:1835-1840 | the size pass writes as many bytes of the number buffer as the longest lexeme has, and gives the length of the print plus one if they are at most 64 |
| JsonWriter.SerializeToBuffer | src/parson.c:1841-1853 | succeeds exactly when the buffer holds that many bytes, and then holds the print and a terminator, but behind a bare number the byte that was there |
| JsonReader.SkipQuotes | src/parson.c:763-781 | the cursor version of the quote scanner |
| JsonReader.QuoteCutsHex | src/parson.c:283-297 | bytes behind a closing quote never change what four hexadecimal digits read as |
| JsonReader.ParseUtf16Hex | src/parson.c:283-297 | four digits or failure, and the last place looked at: the fourth, or the first zero before it |
| JsonReader.ReadCodePoint | src/parson.c:783-827 | reads the code point named after `\u` and moves the cursor over it; looks behind the closing quote exactly if the digits before it are cut short |
| JsonReader.ProcessEscape | src/parson.c:842-862 | one escape: its bytes, or failure, and whether the quote is looked past |
| JsonReader.ProcessString | src/parson.c:832-887 | unescapes within the input's length plus one bytes of output, terminator included; looks behind the closing quote exactly for the bodies of `JsonString.LooksPast`, and never for a string that is accepted |
| JsonString.LooksPastIff | src/parson.c:783-827 | these are the bodies with a late escape: a `\u` with at most two bytes behind it and only good characters before it, or good characters and a leading surrogate |
| JsonString.PastIsRefused | src/parson.c:832-887 | every such body is refused |
| JsonString.LoneEscapeLooksPast | src/parson.c:783-827 | the string whose body is `\u` alone is one, whatever follows it |
| JsonReader.GetQuotedString | src/parson.c:889-898 | returns the string and leaves the cursor behind its closing quote |
| JsonReader.ParseValueAt | src/parson.c:900-923 | the cursor version of the value parser agrees with the function on every text |
| JsonReader.ParseItemsAt | src/parson.c:998-1045 | the element loop agrees with its function |
| JsonReader.ParseArrayAt | src/parson.c:998-1045 | the array parser agrees with its function |
| JsonReader.AddMember | src/parson.c:553-583 | adding a parsed member to the object's table appends it; the table is valid exactly while the names are distinct |
| JsonReader.ParseMembersAt | src/parson.c:925-996 | the member loop agrees with its function and fills a table with the members, valid exactly if no name is repeated |
| JsonReader.ParseObjectAt | src/parson.c:925-996 | the object parser agrees with its function; its table holds the object's members in order and is valid exactly if the text repeats no name |
| JsonReader.ParseTextAt | src/parson.c:1342-1350 | parsing a text, byte order mark skipped, is the parse function |
| JsonTree.DotGetByNames | src/parson.c:1400-1407 | a path without a dot is a name; the part before the first dot names an object in which the rest is looked up |
| JsonTree.DotGetAfterSet | src/parson.c:2164-2213 | after a successful dotset, dotget on the same path returns the value |
| JsonTree.DotSetFrame | src/parson.c:2164-2213 | a successful dotset leaves every path that is neither a prefix nor an extension as it was |
| JsonTree.DotSetFailsIff | src/parson.c:2164-2213 | a dotset fails exactly when a proper ancestor of the path is bound to something that is no object |
| JsonTree.JsonNumbersAreFinite | src/parson.c:2362-2425 | no number of RFC 8259 is infinite or none at all, so only values within 0.000001 of it equal it |
| JsonTree.EqualsIffAgree | src/parson.c:2362-2425 | on trees with distinct names, comparison decides agreement as nested maps, numbers finite and, as exact decimals rather than doubles, within 0.000001 |
| JsonTree.EqualsSymmetric | src/parson.c:2362-2425 | so for two such trees it is symmetric although it walks only the names of the left object |
| JsonTree.EqualsKeepsDistinct | src/parson.c:2362-2425 | what equals a tree with distinct names has distinct names, too |
| JsonTree.OneSided | src/parson.c:2362-2425 | for every tree with a repeated name that equals itself there is one that it equals and that does not equal it |
| JsonTree.SymmetricIff | src/parson.c:2362-2425 | comparison with anything is symmetric if and only if no name is repeated or a number that lookups reach is not finite |
| JsonTree.EqualsOneSided | src/parson.c:2362-2425 | a concrete one-sided pair |
| JsonTree.DeepCopyIsIdentity | src/parson.c:1733-1833 | on trees with distinct names a deep copy equals its original, member order included |
| ObjectTree.TreeObject.Set | src/parson.c:2076-2117 | setting a value in an object that holds others is a put on what it stands for |
| ObjectTree.TreeObject.OnlyChildChanged | src/parson.c:2164-2185 | when one nested object changes within its own part of the tree, nothing else does |
| ObjectTree.TreeObject.DotSetValue | src/parson.c:2164-2213 | the in-place dotset has the effect of the dotset on values and on failure changes nothing |
| ObjectTree.TreeObject.DotGetValue | src/parson.c:1400-1407 | the in-place dotget finds what dotget on values gives |
| ObjectTree.TreeObject.Copy | src/parson.c:1733-1833 | a deep copy shares no object with its original and stands for the copied value |
| Bytes.XorCancels | src/lib/httpi_ws.c:578-600 | masking twice with the same byte is the identity |
| WebSocketModel.MaskedBits | src/lib/httpi_ws.c:578-600 | masking flips the bits that are set in the key, its four bytes in turn |
| WebSocketModel.LengthFieldBytes | src/lib/httpi_ws.c:689-708 | the bytes of the three length forms, the highest first, with the mask bit |
| WebSocketModel.HelloFrames | src/lib/httpi_ws.c:653-734 | the frames of the first examples of section 5.7 of RFC 6455 |
| WebSocketModel.LengthReads | src/lib/httpi_ws.c:137-161 | each of the three length forms reads back, for every length below 2^64; lengths above 0x7FFF0000 are refused |
| WebSocketModel.HeaderReads | src/lib/httpi_ws.c:137-161 | the header of any frame reads back as its lengths and key, whatever follows |
| WebSocketModel.FrameReads | src/lib/httpi_ws.c:137-236 | a frame reads back as its opcode and unmasked payload |
| WebSocketModel.FramesArrive | src/lib/httpi_ws.c:130-390 | frames laid end to end are delivered in order, up to the first close or refusal |
| WebSocketModel.SessionEnds | src/lib/httpi_ws.c:130-390 | that is, up to the first frame with opcode 8 or refused by the callback, this one included |
| WebSocketModel.HeadStable | src/lib/httpi_ws.c:137-161 | bytes behind a complete header do not change how it reads |
| WebSocket.WordXor | src/lib/httpi_ws.c:578-600 | exclusive or of words is exclusive or of their bytes |
| WebSocket.MaskData | src/lib/httpi_ws.c:578-600 | masking by words or by bytes, aligned or not, is masking byte by byte with the repeated key |
| WebSocket.FillLength | src/lib/httpi_ws.c:689-708 | fills in the length field for every payload length below 2^64 |
| WebSocket.WriteExec | src/lib/httpi_ws.c:653-734 | writes the frame's header and then the payload as given |
| WebSocket.ClientWrite | src/lib/httpi_ws.c:630-651 | writes the encoding of the masked frame |
| WebSocket.WsReader.DecodeHead | src/lib/httpi_ws.c:137-161 | reads the header from the front of the queue, or finds it incomplete |
| WebSocket.WsReader.PullRest | src/lib/httpi_ws.c:189-216 | a payload longer than the queue: the queued part and then the network's bytes |
| WebSocket.WsReader.TakeQueued | src/lib/httpi_ws.c:216-231 | a queued payload is copied and the queue moves forward over its frame |
| WebSocket.WsReader.ReadWebsocket | src/lib/httpi_ws.c:130-390 | the messages delivered are those of the byte stream, however it arrives |
| WebSocket.Unmask | src/lib/httpi_ws.c:233-236 | unmasking in place |
| Socket.Socket.Read | src/lib/httpi_io.c:782-800 | a read gives at least one byte of the stream while it lasts, and never reorders |
| ChunkedModel.SizeLineReads | src/lib/httpi_io.c:922-957 | a size line of 1 to 61 hexadecimal digits in either case, zeros in front allowed, reads as the number it spells, cut to 64 bits |
| ChunkedModel.SizeLineIff | src/lib/httpi_io.c:922-957 | digits and a line break are a size line exactly if there are 1 to 61 of them; digits and another byte never are |
| ChunkedModel.ReadDelivers | src/lib/httpi_io.c:870-965 | one read gives as many content bytes as asked for, or all that are left, and no framing, however the sizes of the chunks are spelled |
| ChunkedModel.ReadManyDelivers | src/lib/httpi_io.c:870-965 | a run of reads from any point of a body gives the rest of its content cut into the lengths asked for |
| ChunkedModel.ReadsGiveContent | src/lib/httpi_io.c:870-965 | reads of any positive lengths over any well-formed body give exactly its data and then nothing |
| ChunkedModel.SentReadsBack | src/lib/httpi_io.c:971-1001 | what `http_chunk` sent in pieces is such a body and reads back as their bytes |
| ChunkedBody.Conn.ReadAll | src/lib/httpi_io.c:782-800 | takes bytes from the socket until there are enough or it ends |
| ChunkedBody.Conn.ReadInner | src/lib/httpi_io.c:802-856 | takes the next bytes of the stream, buffered ones first, within the content budget |
| ChunkedBody.Conn.Getc | src/lib/httpi_io.c:858-868 | takes one byte under a budget raised by one; 0 at the end |
| ChunkedBody.Conn.ReadSizeLine | src/lib/httpi_io.c:922-957 | collects a size line exactly as the line function scans it |
| ChunkedBody.Conn.ReadChunkData | src/lib/httpi_io.c:893-921 | data of the current chunk and, once it is used up, its line break |
| ChunkedBody.Conn.HttpRead | src/lib/httpi_io.c:870-965 | returns what the read function gives on the stream, for any split between buffer and socket pieces |
| Delivery.ExchangeFrames | src/lib/httpi_ws.c:653-734 | frames written one after the other, cut up by the network in any way, are delivered as the same opcodes and payloads up to the first that ends the session |
| Delivery.ExchangeChunks | src/lib/httpi_io.c:971-1001 | pieces sent chunk by chunk and read back with any lengths give exactly their bytes, for any split between buffer and network |
| Delivery.ExchangeTree | src/parson.c:1835-1890 | a tree printed into a buffer of the size the size pass gives reads back as the tree, if and only if it nests at most 2048 deep |
| HeaderScan.GetHeaderLength | src/lib/httpi_io.c:1354-1384 | the loop computes the header length of the model |
| HeaderScan.HeaderLengthMeaning | src/lib/httpi_io.c:1354-1384 | the answer is the end of the first blank line, -1 for a control character before it, 0 if there is neither |
| HeaderScan.HeaderEndsIff | src/lib/httpi_io.c:1354-1384 | the length is positive exactly if it is the end of a blank line, with carriage returns or without, and neither a blank line nor a control character comes before it |
| HeaderScan.HeaderFailsIff | src/lib/httpi_io.c:1354-1384 | it is -1 exactly for a control character with neither before it, and 0 if there is neither |
| HeaderScan.MoreChangesNothing | src/lib/httpi_io.c:1354-1384 | a nonzero answer stays the same on every extension of the buffer |
| HeaderScan.MessageLengthMeaning | src/lib/httpi_io.c:1399-1432 | reading a message ends with the end of the first blank line; with -1 for a control character before it, or if the bytes end before the buffer is full; with -2 if it is full and holds neither |
| HeaderScan.ReadMessage | src/lib/httpi_io.c:1399-1432 | the request length depends on the bytes alone, not on how the socket splits them |
| UriModel.CleanedIsClean | src/lib/httpi_request.c:1366-1514 | a cleaned path has no backslash, no `//`, no `./`, no final dot, is not longer, and is absolute if the input was |
| UriModel.CleanFixes | src/lib/httpi_request.c:1366-1514 | cleaning changes nothing exactly when the path has that shape |
| UriModel.CleanTwice | src/lib/httpi_request.c:1366-1514 | cleaning again changes nothing |
| UriModel.DotSegmentsResolve | src/lib/httpi_request.c:1391-1466 | on absolute paths, dot segments are resolved against the stack of segments before them |
| UriModel.RemovedIsRooted | src/lib/httpi_request.c:1391-1466 | removing dot segments from an absolute path leaves an absolute path |
| UriLaws.ShornIs | src/lib/httpi_request.c:1482-1501 | a segment shorn of its dots is the segment up to its last other character |
| UriLaws.SqueezeKeepsSegments | src/lib/httpi_request.c:1480-1513 | the second pass keeps the segments in their order, each shorn of the dots at its end, without the empty ones before the last |
| UriLaws.CleanedSegments | src/lib/httpi_request.c:1366-1514 | so cleaning an absolute path without backslashes gives its segments, dot segments resolved, shorn and without empty ones |
| UriClean.TurnBackslashes | src/lib/httpi_request.c:1378-1383 | backslashes become slashes, nothing else changes |
| UriClean.BackOver | src/lib/httpi_request.c:1427-1443 | steps back over the last segment written and its slash |
| UriClean.MoveSegment | src/lib/httpi_request.c:1459-1465 | one segment moves down in the buffer |
| UriClean.RemoveDots | src/lib/httpi_request.c:1391-1473 | the in-place loop computes the two-buffer algorithm of section 5.2.4 of RFC 3986, its write position never ahead of its read position |
| UriClean.PassDots | src/lib/httpi_request.c:1482-1501 | a run of dots is dropped before a slash or the end, with the slash before it, and copied otherwise |
| UriClean.SqueezePath | src/lib/httpi_request.c:1480-1513 | the second pass in one sweep strips trailing dots and merges slashes |
| UriClean.RemoveDoubleDotsSlashes | src/lib/httpi_request.c:1366-1514 | the whole function leaves the cleaned path, terminated, in the buffer |
| UrlCodec.UrlEncode | src/lib/httpi_request.c:635-657 | succeeds exactly when the encoded text and its terminator fit, and then holds it |
| UrlCodec.UrlDecode | src/lib/httpi_request.c:602-627 | decodes to a separate buffer or onto its source with the same result; -1 exactly for a blank or control character or too little room; the whole buffer afterwards, failures included |
| UrlCodec.DecodeInPlace | src/lib/httpi_request.c:630-633 | in place the room is always enough; a text with a blank or control character is decoded up to it and left as it was from the write position on |
| UrlCodec.UntilThePlace | src/lib/httpi_request.c:602-627 | what was written before decoding stopped is the decoding of the text before that place |
| UrlCodec.EncodedBytes | src/lib/httpi_request.c:635-657 | letters, digits and `._-$,;~()` are left as they are, every other byte becomes `%` and two lower-case digits |
| UrlCodec.EscapeReads | src/lib/httpi_request.c:602-627 | an escape with digits in either case reads as the byte it names |
| UrlCodec.OthersRead | src/lib/httpi_request.c:602-627 | a byte that starts no escape reads as itself, in forms a plus as a blank, and a blank or control character fails |
| UrlCodec.DecodeEncode | src/lib/httpi_request.c:602-657 | decoding undoes encoding, in form mode and out of it |
| UrlCodec.EncodedLength | src/lib/httpi_request.c:635-657 | encoding at most triples the length |
| UrlCodec.EncodeWithRoom | src/lib/httpi_request.c:711-716 | with three bytes a character and one more, encoding always succeeds |
| UrlCodec.EncodeInjective | src/lib/httpi_request.c:635-657 | different texts have different encodings |
| Glob.MatchPrefix | src/lib/httpi_options.c:674-711 | the loop with its recursion computes the result function and ends |
| Glob.TryStar | src/lib/httpi_options.c:691-706 | spans of a star are tried from the longest down |
| Glob.MatchDecided | src/lib/httpi_options.c:674-711 | without an alternative, a result is a length the pattern matches, and -1 means that no prefix matches |
| Glob.StarTakesLongest | src/lib/httpi_options.c:691-706 | a star at the front takes the longest span behind which the rest of the pattern matches |
| Glob.FirstStarTakesLongest | src/lib/httpi_options.c:686-706 | so does the first star of any pattern, whatever stands before it |
| GlobLaws.OrdinaryStart | src/lib/httpi_options.c:707-709 | characters that are not special match themselves, letter case aside |
| GlobLaws.OneStar | src/lib/httpi_options.c:691-706 | with ordinary text around it, `*` stands for any part without a slash |
| GlobLaws.TwoStars | src/lib/httpi_options.c:691-706 | and `**` for any part at all |
| GlobLaws.AnyByte | src/lib/httpi_options.c:687-688 | `?` stands for any one byte |
| GlobLaws.EndOfString | src/lib/httpi_options.c:689-690 | `$` matches only at the end of the string |
| GlobLaws.SlashesAreMatched | src/lib/httpi_options.c:686-709 | what a pattern without `**` matches has no more slashes than the pattern has slashes and question marks |
| GlobLaws.OneStarResult | src/lib/httpi_options.c:691-706 | the result for a pattern with one star is its longest match |
| Glob.ResultOfAlternatives | src/lib/httpi_options.c:679-684 | the first alternative with a positive result counts, failing that the last one |
| GlobLaws.AlternativesAreParts | src/lib/httpi_options.c:679-684 | the alternatives are the parts of the pattern between the bars |
| GlobLaws.PositiveIff | src/lib/httpi_options.c:674-711 | the result is positive exactly if an alternative matches something that is not empty |
| Glob.ResultBySign | src/lib/httpi_options.c:674-711 | the result is -1 if no prefix matches, 0 if only the empty one does, and positive otherwise |
| Glob.HiddenEmptyMatch | src/lib/httpi_options.c:679-684 | exactly when -1 hides a match of some alternative, in terms of what the alternatives match |
| Glob.HiddenEmptyMatchHappens | src/lib/httpi_options.c:679-684 | it does for the pattern with two stars or `x` on the empty string |
| HandlerModel.ApplyKeepsUnique | src/lib/httpi_io.c:2635-2711 | one entry per kind and URI |
| HandlerModel.ExactAfterApply | src/lib/httpi_io.c:2635-2711 | a change decides the exact lookup of its own kind and URI and of no other |
| HandlerModel.RunAgrees | src/lib/httpi_io.c:2635-2711 | over every run, entries are unique and exact lookup gives what was last set and not deleted |
| HandlerModel.SetServes | src/lib/httpi_request.c:522-599 | a handler that was set serves its exact URI whatever prefixes and patterns there are |
| HandlerModel.NewEntryComesLast | src/lib/httpi_request.c:522-599 | a new entry takes another URI over only by covering what only a pattern served |
| HandlerLaws.ServedExactly | src/lib/httpi_request.c:522-599 | a URI is served by the first entry for exactly that URI |
| HandlerLaws.ServedFromAbove | src/lib/httpi_request.c:522-599 | failing that, by the first one whose URI and a slash it starts with, whatever patterns there are |
| HandlerLaws.ServedByPattern | src/lib/httpi_request.c:522-599 | failing that, by the first with a pattern that matches a start of it, or by none |
| HandlerLaws.AcceptsIff | src/lib/httpi_io.c:2598-2625 | a change is accepted exactly if it brings no callback of another kind and, unless it deletes, one of its own |
| HandlerLaws.RelevantKeeps | src/lib/httpi_io.c:2664-2711 | an accepted handler is stored with all its callbacks, its data and its protocols |
| Handlers.Domain.Search | src/lib/httpi_io.c:2635-2639 | finds the node and the link that leads to it |
| Handlers.Domain.SetHandlerType | src/lib/httpi_io.c:2598-2711 | updates, unlinks or appends in the linked list as the model says |
| Handlers.Domain.Unlink | src/lib/httpi_io.c:2656-2662 | takes one node out and keeps the order of the others |
| Handlers.Domain.GetRequestHandler | src/lib/httpi_request.c:522-599 | the three passes over the list compute the three-stage lookup |
| LockModel.RefusedIff | src/lib/httpi_request.c:957-980 | a lock request is refused exactly while another user has an unexpired lock on the path; no unexpired slot and no other path's slot changes then |
| LockModel.LockKeepsOneOwner | src/lib/httpi_request.c:954-1019 | all locks on a path belong to one user, after every request |
| LockModel.RunKeepsOneOwner | src/lib/httpi_request.c:930-1087 | and so over every run of lock and unlock requests |
| LockModel.GrantedIsHeld | src/lib/httpi_request.c:982-1017 | a granted request stores a lock, except that with every slot in use for other paths the oldest lock is dropped and none stored |
| LockModel.EleventhLockIsNotHeld | src/lib/httpi_request.c:1005-1017 | a concrete full table |
| LockModel.RefreshMayStoreTwice | src/lib/httpi_request.c:957-1004 | a path with one lock at most has two after a request if and only if the user has a lock on it and some slot is free |
| LockModel.RefreshStoresTwice | src/lib/httpi_request.c:957-1004 | a concrete refresh that stores a second lock |
| LockModel.LockExcludes | src/lib/httpi_request.c:930-1087 | a lock keeps other users out until it expires, whatever is called meanwhile short of an eviction, unlocking included |
| LockLaws.RefusedForAMinute | src/lib/httpi_request.c:957-1019 | a request is refused exactly while another user's lock on the path is at most 60 seconds old; otherwise, and unless every slot is in use for other paths, the user has a slot afterwards |
| LockLaws.LocksEnd | src/lib/httpi_request.c:930-1087 | after any run in which no other user asked for the path for more than 60 seconds, a request for it is granted |
| WebDav.Locks.Find | src/lib/httpi_request.c:959-980 | the search refreshes, clears or stops as the scan function does |
| WebDav.Locks.Create | src/lib/httpi_request.c:982-1004 | fills the first free slot |
| WebDav.Locks.DropOldest | src/lib/httpi_request.c:1005-1017 | frees the first slot with the oldest lock time |
| WebDav.Locks.LockFile | src/lib/httpi_request.c:930-1019 | response and slots of a lock request are those of the model |
| WebDav.Locks.UnlockFile | src/lib/httpi_request.c:1058-1087 | answers 204 exactly when the path has a slot, whoever owns it, and changes none |
| Ssi.NothingLost | src/lib/httpi_request.c:1939-2015 | every byte of a page is in exactly one piece: text, a closed tag, or the rest from a tag that is too long |
| Ssi.HarmlessIsAllBytes | src/lib/httpi_request.c:1939-2015 | from any place where no tag is open, the scanner finds neither directive nor over-long tag exactly when no tag that opens there is a closed SSI tag or goes on for 8190 bytes |
| Ssi.SentUnchanged | src/lib/httpi_request.c:1927-2015 | a page without such a tag is sent as it is |
| Ssi.SentUnchangedIff | src/lib/httpi_request.c:1927-2015 | and where includes are missing and commands silent, no other page is |
| Ssi.PlainlyHarmless | src/lib/httpi_request.c:1939-2015 | a page with no SSI mark before a `>` and no `<` before 8190 bytes without a `>`, inside tags or not, has no such tag |
| Ssi.TagCloses | src/lib/httpi_request.c:1945-1970 | a closing `>` ends the buffered tag: obeyed if it starts with the SSI mark, else written |
| Ssi.TagByte | src/lib/httpi_request.c:1943-1984 | one byte inside a tag: what it makes the scanner write and hold, within the buffer |
| Ssi.TextByte | src/lib/httpi_request.c:1985-2009 | one byte outside tags |
| Ssi.SendSsiFile | src/lib/httpi_request.c:1927-2015 | the scanner, indexing its buffer within bounds on every page, writes what the page means, nested includes expanded |
| Ssi.SelfIncludeEnds | src/lib/httpi_request.c:1892-1937 | includes end: a page that includes itself is sent six times |
| SsiLaws.DirectiveInPage | src/lib/httpi_request.c:1939-2015 | text, a directive and more are sent as the text, what the directive stands for, and what the rest means |
| SsiLaws.IncludeInserts | src/lib/httpi_request.c:1892-1937 | an include of a plain file puts the file in its place as it is, of a page what the page means, of a missing file nothing |
| SsiLaws.ExecInserts | src/lib/httpi_request.c:1960-1966 | a command's output stands where its directive stood |

## Left out

- Socket.Socket.Read: TLS, coroutines, timeouts, a read of zero bytes and a server that is being stopped are not modelled; the network only delivers bytes or ends.
- ObjectTable.JsonObject.GrowAndRehash: allocation failure and the cut of the item capacity to 32 bits are not modelled; counts are unbounded.
- ObjectTable.JsonObject.Remove: freeing names and values, and the parent pointers of values, are not modelled.
- ObjectTree.TreeObject.DotSetValue: objects keep their names and values in sequences instead of the probing table, whose operations are proved in `ObjectTable`; the library's refusal of a value that already has a parent is the precondition that the value shares no object with the tree.
- ObjectTree.TreeObject.Copy: arrays inside a value are copied as values; ownership of the copied strings is not captured.
- JsonTree.ValueEquals: finite numbers are compared as exact decimals within 0.000001, without rounding to a double; infinite numbers and those that are none differ from every number, as in the library.
- JsonWriter.SerializationSize: what the library does once it has written past the 64 bytes of its number buffer is not modelled; the buffer of the model is as long as the lexemes need.
- JsonWriter.SerializeToBuffer: number lexemes longer than 64 bytes are excluded, as it runs the size pass first; printing into a buffer and reading have no such limit.
- JsonReader.ParseObjectAt: the tree that is passed on holds the members as a list; the table beside it holds the same members and is not nested.
- JsonGrammar.StandardTextReads: texts with a lone surrogate, or with a zero byte in a name, stand for no tree; that the library refuses them is `JsonUtf8.EscapedCodePointReads` and `JsonReader.ParseMembersAt`. The texts are bytes; that they are UTF-8 is not asked.
- JsonNumber.StrtodLen: the bracketed form of `nan` and rounding to a double are not modelled; numbers are kept as their text.
- JsonText.Print: only numbers that keep their text are printed; float formats and serialization callbacks are not modelled.
- WebSocket.WsReader.ReadWebsocket: deflate, the filter for ping and pong frames and the buffer of over-long payloads are not modelled; the buffer has at least 14 bytes behind the request.
- WebSocket.WriteExec: payloads above 100 KB are not modelled; the library deflates them if the peer accepts that, and otherwise sends nothing behind the header.
- WebSocket.ClientWrite: payloads above 100 KB are not modelled, as for `WebSocket.WriteExec`; the masking key is a parameter, how it is drawn is not modelled.
- ChunkedBody.Conn.HttpRead: one chunked request, starting with nothing consumed; bodies that are not chunked are read by `ChunkedBody.Conn.ReadInner` alone.
- ChunkedModel.SentReadsBack: pieces are below 4 GB, as the sender's length is a 32-bit number; none is empty, as an empty one ends the body; trailers are not read.
- UriClean.RemoveDoubleDotsSlashes: a null pointer is not modelled.
- Glob.MatchPrefix: lengths are unbounded; the byte behind the pattern must not be a star, since a final star reads it; letters are compared in the C locale.
- Handlers.Domain.SetHandlerType: a null URI, running out of memory and the mutex are not modelled.
- WebDav.Locks.LockFile: the token is kept as what it is a digest of; the XML answer is not modelled, and the link is not empty.
- Ssi.Obey: where an include leads and what a command prints are parameters; parsing the file name inside a tag is not modelled.
- The hash tables of `src/hashtable.c`, the schema validator, cookies, multipart bodies, authorization, options, MIME types and the keep-alive loop are not part of this model.
