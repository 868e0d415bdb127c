# FIDOGATE: models and proofs

FIDOGATE is a gateway between FidoNet and Internet mail and news. This project models six of its
components in Dafny and proves what they are for.

* **History index** (`Hash`, `CaseMap`, `DbzTable`, `Dbz`, `HistDb`, `HistoryRun`, `TableSize`). The
  history is a text file of message ids with a hash index: linear probing in runs of bounded length,
  any number of overflow tables, tags from the hash in the stored words, a first table that may be in
  core, stream positions that are not sought again, searches that a store resumes. `Dbz.Database`
  holds all of that and refines a list of (key, offset) entries; `HistoryRun.Run` drops even this:
  every answer of every run of opens, closes, syncs, writes and tests is what the operations before
  it say. `TableSize` is the prime search behind the size of a table.
* **Header encoder and body codec** (`Base64`, `Base64Body`, `MimeText`, `MimeTokens`, `MimeReader`,
  `MimeHeader`, `MimeExamples`). `MimeHeader.WordState` is the encoder's state with its line position
  and its pending bytes. `MimeReader` is a reader of the bytes put out: it takes the line ends out, cuts
  at white space, finds the encoded-words by the grammar of section 2 of RFC 2047, which asks for at
  least one character of text, decodes them and drops the blanks between adjacent ones (section 6.2).
  What it finds and shows is compared with the header.
* **Glob matcher** (`Wildmat`, `WildPattern`). The loop with one remembered star against the meaning of
  a pattern, first of its tokens, then of its text.
* **areas.bbs** (`Decimal`, `FtnNode`, `StrTok`, `NodeList`, `Uplinks`, `AreasBbs`, `AreasFile`,
  `AreasByHand`). Printing and parsing of addresses, of address lists coded as differences, of quoted
  tokens, of lines and files; and what is read of lines the printer would not write.
* **Output packets** (`OutPkt`). The pool of packet files of which only some are open.
* **Packets and message ids** (`PktBody`, `PktHeader`, `PktFile`, `MsgId`, `MsgIdForm`). What is written is read
  back, and FTN message ids survive their trip through RFC form. `Delivery` joins this with the pool:
  what was posted in any order is what the readers of the finished files find.

Where a writer and a reader could agree on the wrong thing, what one of them does is also stated in
other terms: letters by the alphabet, bytes by their place in the file, a line letter by letter.

`Common` and `Arith` hold shared types and the arithmetic of division. Code that updates state in the
source is a class or a method with loops here, proved against functions and predicates over values;
the main lemmas are about those.

## What the proofs found

The code is modelled as it is. Where it does not do what one would hope, the exact condition is
proved, and for the surprising ones there is an example.

* A record whose key is too long, or whose offset has the tag-enable bit set, stays in the history
  text while the index refuses it (`HistDb.History.WriteT`).
* `isprime(1)` is true, so `dbzsize(1)` is 1; primes up to 37 are rejected (`TableSize.Accepted`).
* `wildmatch` asks a reversed class whether it takes the terminating NUL; if it does, the matcher
  reads on behind the subject. When exactly is `Wildmat.ReadsPastEnd`; `[^a]` on the empty subject is
  an input (`Wildmat.PastTheEnd`). That never concerns a subject that matches.
* The B encoder overwrites its pending bytes when a token of a blank and one eight-bit byte comes
  inside an encoded-word on a full line (`MimeHeader.WordState.WordEnc`). Valid UTF-8 never gets there
  (`MimeHeader.Utf8HeaderOk`). In a single-byte charset whose name has six letters, the header `X:`
  with a word of 43 eight-bit bytes and one of a single such byte does: a reader of the output is shown
  one byte less (`MimeExamples.LostByte`).
* Both encoders write encoded-words with no text, which RFC 2047 does not allow and a reader does not
  take for encoded-words: when there is room on the line to open a word and for one quantum, but not
  for what the loop keeps free behind it, the word is closed again with nothing in it
  (`MimeHeader.WordState.ClosesEmpty`). The header `X:` with a word of 52 letters and one of a single
  three-byte character does it, in UTF-8, with B and with Q (`MimeExamples.WriteEmptyWord`).
* The B encoder can split a character of UTF-8 between two encoded-words, against section 5 of RFC 2047:
  a character's last byte is pending, and the line has no room for the quantum it should go into. The
  words of twenty, one and one e-acute do it (`MimeExamples.SplitCharacter`). Two encoded tokens in a
  row are needed for that, and the Q encoder never does it (`MimeHeader.HeaderEnc`).
* The Q encoder leaves question marks as they are, so a reader does not see an encoded-word where one
  is meant (`MimeExamples.QuestionMarkMisread`); a plain token that looks like an encoded-word goes out as
  it is and is decoded (`MimeExamples.PlainMisread`). With neither, and no empty encoded-word in the
  output, and only then, the reader finds the encoded-words that are meant (`MimeHeader.HeaderEnc`).
* Several blanks, or a tab, before the first of a row of encoded tokens are shown as one space, and the
  blank between an encoded token and a seven-bit one too long for a line is not shown
  (`MimeText.ExpectedIsSource`, `MimeText.LostBlanks`).
* After the limit of open packets is lowered below what is open, the next file opened makes room again.
  Closing the pool before that can go astray: an entry found closed has to be reopened, and making room
  for it walks over entries already freed. When exactly is in `OutPkt.Pool.Close`, an input in
  `OutPkt.LoweredLimit`. The programs set the limit at start-up only, where no packet is open.
* In areas.bbs an address directly after another point of its node, itself being point 0, is printed
  as nothing. That can happen among the uplinks, at the first sorted address, and in passive lists,
  where everything after it is lost too (`NodeList.LossIsBeforeTheSorted`, `AreasBbs.LostUplink`).
* Repetitions among the uplinks are merged when areas.bbs is written, but the number of uplinks stays,
  so a downlink becomes an uplink (`AreasBbs.DownlinkPromoted`). The uplinks stay the uplinks exactly
  when each of them differs from the one before and is printed, but for one coincidence: the last uplink
  repeats the one before, and the sorted links start with point 0 of its node, which is not printed, and
  go on with that address once more (`AreasBbs.UplinksKept`).
* The loss of an address can bring two equal ones together, which a second reading merges; from then on
  nothing changes (`AreasBbs.NormalIsStable`).
* A body that ends in an unpaired byte 2 makes the packet reader stop two bytes early, drop that byte
  and look for another message there (`PktBody.BodyLines`). All other bodies without zero bytes are safe,
  also those with a byte 2 in them.
* `pkt_get_string` writes no terminator when the string and its terminator would fill the buffer
  exactly (`PktFile.PktGetString`).

## Model

| member | source | states |
|---|---|---|
| HistoryRun.Run | src/common/histdb.c:194-232 | over any run of opens, closes, syncs, writes and tests, with any configuration and any choice of in-core table: a test says yes exactly when the history is open and an earlier successful write had the same id but for the case of letters, where the mode lets case differ; a write succeeds exactly when the history is open, the id has fewer than 254 characters and bit 31 of the offset is not set, tags being on; the text at the end has one line with id and time for each write on the open history |
| HistoryRun.SuccessesAreWrites | src/common/histdb.c:290-301 | the successful writes' ids, as the index sees them, are those of the write operations that reported success |
| HistDb.History.WriteT | src/common/histdb.c:194-232 | the text grows by one line whether or not the index takes it; the ids behind the index grow by this id exactly on success; when success happens |
| HistDb.History.Test | src/common/histdb.c:290-301 | yes exactly when the open history holds an id that is one key with this one, letter pairs taken from the alphabet; nothing observable changes |
| HistDb.History.Open | src/common/histdb.c:80-122 | opening forgets no id, in core or not, and fails only on an open history |
| HistDb.History.Close | src/common/histdb.c:127-140 | closing writes everything back: the ids and the text stay, no core table is left |
| HistDb.AppendedRecord | src/common/histdb.c:202-224 | the appended line is a readable record of the mapped id at the offset that will be indexed |
| Dbz.Database.Fetch | src/common/dbz.c:837-906 | the answer is the offset of the first entry stored under the key, none for an unknown or over-long key; all probing, tags and short reads notwithstanding |
| Dbz.Database.MappedFetch | src/common/dbz.c:807-827 | the same for keys before case mapping; a key at the limit or beyond finds nothing |
| Dbz.Database.Store | src/common/dbz.c:980-1023 | exactly the storable keys are stored; the entry goes to the first vacant word of its path, every other word keeps its value; a failed store changes no entry and no word |
| Dbz.Database.MappedStore | src/common/dbz.c:955-975 | the same for keys before case mapping |
| Dbz.Database.Search | src/common/dbz.c:1256-1333 | terminates for every table; stops at the next word that is vacant or not ruled out by the tag, having passed only words that are ruled out |
| Dbz.Database.Start | src/common/dbz.c:1230-1250 | fresh or resumed, the searcher stands on the path of the key's hash with everything before it filled |
| Dbz.Database.ReadWord | src/common/dbz.c:1281-1311 | the word read with or without a seek, from core or file, also beyond its end, is that of the one logical table |
| Dbz.Database.Set | src/common/dbz.c:1352-1402 | one word of the logical table changes, in core or on disk, and it is the tagged and biased offset |
| Dbz.Database.Enter | src/common/dbz.c:1013-1022 | entering at a vacant word keeps the whole index invariant |
| Dbz.Database.GetCore | src/common/dbz.c:1186-1211 | the in-core table is the first part of the file, padded with vacant words |
| Dbz.Database.Init | src/common/dbz.c:592-714 | reopening restores a valid index with the same entries, or fails on an open one |
| Dbz.Database.Sync | src/common/dbz.c:762-785 | afterwards the disk alone holds the table and its configuration; entries unchanged |
| Dbz.Database.Close | src/common/dbz.c:719-757 | the index is closed with the disk holding everything |
| Dbz.Database.Compare | src/common/dbz.c:877-899 | short, same or other, as the bytes at the offset decide |
| DbzTable.HitIffSameKey | src/common/dbz.c:867-893 | reading key-length-plus-one bytes, mapping and comparing accepts a record exactly when it was filed under the same mapped key |
| DbzTable.ShortReadMeansUnknown | src/common/dbz.c:878-885 | when the bytes of a candidate cannot be read, no entry has the key: giving up hides nothing |
| DbzTable.VacantMeansUnknown | src/common/dbz.c:873-905 | a vacant word on the path means the key is not stored |
| DbzTable.HitIsEarliest | src/common/dbz.c:887-899 | the first hit on the path is the earliest entry of the key |
| DbzTable.MissStepsOn | src/common/dbz.c:874-900 | a record of another key is rightly passed over |
| DbzTable.StoreOrderIsProbeOrder | src/common/dbz.c:1266-1331 | entries of equal keys lie on the path in the order they were stored |
| DbzTable.EarliestFirst | src/common/dbz.c:1266-1331 | whatever lies before an entry on its path was stored before it |
| DbzTable.ExtendChain | src/common/dbz.c:1352-1402 | filling the first vacant word of a path keeps every path chained and the table denoting the entries |
| DbzTable.ReadingEncode | src/common/dbz.c:1352-1402 | a stored word read with its own tag gives the offset back, tags on or off |
| DbzTable.ReadingEncodeAnyTag | src/common/dbz.c:1319-1330 | read with any tag, a stored word gives its offset or is ruled out, and is ruled out only by a tag other than that of its hash, so only when the hashes differ |
| DbzTable.StoredWord | src/common/dbz.c:1352-1402 | which bits of a stored word are the tag, where the mark for it is, and when an offset is stored without |
| DbzTable.NextProbe | src/common/dbz.c:1267-1278 | one step of place, run and table number is the next slot of the path |
| DbzTable.ProbeIs | src/common/dbz.c:1230-1278 | where each probe of a path looks: table by table in runs, wrapping within a table |
| DbzTable.PathLeaves | src/common/dbz.c:1267-1278 | every path leaves every finite part of the file, for any table size and run length |
| DbzTable.CutKeyMissesAll | src/common/dbz.c:807-827 | a key cut at the limit equals no stored record |
| DbzTable.RecordsAfterAppend | src/common/histdb.c:202-224 | appending to the text keeps all records readable |
| Hash.Compute | src/common/dbz.c:1508-1517 | the hash of a key as a function of its bytes, within 31 bits |
| Hash.EntryBits | src/common/dbz.c:1490-1502 | an entry of the table as a sum of what each of the seven bits of its index brings |
| Hash.HighBitIgnored | src/common/dbz.c:1508-1517 | only the low seven bits of a character reach the hash |
| Hash.HashOfOne | src/common/dbz.c:1508-1517 | the hash of one key as a number |
| CaseMap.MapCaseInto | src/common/dbz.c:1616-1639 | mapping lower-cases exactly from the break on |
| CaseMap.SameMapped | src/common/dbz.c:1616-1681 | two ids are one key when each character is the same or a letter and its other case, in the mode for message ids only behind the first at sign unless they are the postmaster's; in the modes without mapping when they are equal |
| CaseMap.LowerSame | src/common/dbz.c:1549-1570 | two texts have one lower-case form exactly when at each place they have the same character, or the k-th letter of the alphabet in its two cases |
| CaseMap.SameIgnoringCase | src/common/dbz.c:1574-1606 | two texts differ in the case of letters alone |
| CaseMap.MapCaseSnoc | src/common/dbz.c:1616-1639 | a separator or NUL after a key does not change how the key is mapped |
| TableSize.IsPrime | src/common/dbz.c:467-493 | the halving and doubling bound decides exactly: 1, or a prime above 37 |
| TableSize.TableSize | src/common/dbz.c:443-460 | terminates; the least accepted odd size from the tentative one on, and large enough for the contents |
| TableSize.PrimeAbove | src/common/dbz.c:443-460 | there is a prime above every number, so the search ends |
| TableSize.SmallFactorSeen | src/common/dbz.c:467-493 | a composite number has a divisor the loop tries, up to the stop the square-root bound gives |
| Wildmat.Match | src/common/wildmat.c:199-266 | terminates; true exactly when the pattern's meaning matches the whole subject; reads past the end exactly when, the segments before it matched as early as they can and its own nowhere, the first place where the subject ends under a question mark or a class that takes the NUL is one of a class |
| Wildmat.WildMatch | src/common/wildmat.c:199-266 | the same two conditions for the three modes; in the third, subject and pattern change places |
| Wildmat.StarForgets | src/common/wildmat.c:232-265 | once a segment after a star has been matched at its first place, only the next star need be remembered |
| Wildmat.ScanClass | src/common/wildmat.c:239-255 | the scan of a class decides membership and finds its end |
| Wildmat.RunPastEnd | src/common/wildmat.c:217-265 | that condition, over segments and places, against the matcher's steps over tokens |
| Wildmat.PastTheEnd | src/common/wildmat.c:239-255 | a pattern read past the end of the subject, and one that is not although its class takes the NUL |
| WildPattern.EveryPattern | src/common/wildmat.c:199-266 | every pattern with closed brackets and no backslash at its end is made of stars, question marks, plain and quoted characters and classes, and matches just the subjects these take, character by character, case folded by the alphabet |
| WildPattern.PatternMeans | src/common/wildmat.c:211-262 | the same from the pieces: their text put together is a pattern and means what they mean |
| WildPattern.OnePart | src/common/wildmat.c:219-259 | a question mark, a plain or quoted character or a class alone takes the subjects of one character that it names |
| WildPattern.OneRange | src/common/wildmat.c:113-124 | a range takes what lies between its ends, both included, in the order of signed characters, and its low end in any case; reversed, all other characters |
| Base64.QuantumRoundTrip | src/common/mime.c:185-217 | one to three bytes encode to four letters that decode to them, padding only where bytes are missing |
| Base64.EncodeChunk | src/common/mime.c:185-217 | the letter-by-letter construction is that quantum |
| Base64.QuantumDigits | src/common/mime.c:185-217 | the bytes as one number of 24 bits are the letters as digits to the base 64, in the alphabet of RFC 2045, with a padding sign for each byte missing |
| Base64.DecodeText | src/common/mime.c:931-989 | the loop decodes as the quantum-wise definition says, with its errors |
| Base64.AppendQuantum | src/common/mime.c:483-542 | a quantum after unpadded text keeps the text valid and appends its bytes to what it stands for |
| Base64.RaggedUndecodable | src/common/mime.c:931-989 | text whose length is not a multiple of four is an error |
| Base64Body.CharIterator.Next | src/common/textlist.c:302-341 | the iterator crosses line ends: as many bytes as asked for, or all that are left |
| Base64Body.EncodeTextList | src/common/mime.c:896-929 | every output line is valid base64 and a multiple of four long, all but the last have 76 letters, the last is empty only without input, and decoded line by line they are the input bytes |
| Base64Body.RoundTrip | src/common/mime.c:896-989 | encoding a text list and decoding its lines gives the bytes of the list |
| MimeText.AppendQOctet | src/common/mime.c:606-629 | one more octet in Q text is one more byte shown |
| MimeText.QPlainIs | src/common/mime.c:170-175 | the characters Q leaves as they are, one by one |
| MimeText.TokenAdds | src/common/mime.c:689-727 | what a token adds to what is shown is no longer than the token, and is the token exactly when it is plain, or comes after an encoded one and has eight-bit bytes, or is the first of a row with a single space before it |
| MimeText.ExpectedIsSource | src/common/mime.c:552-582 | what a reader is shown equals the tokens put together exactly when every token keeps the blanks before it; otherwise, the header's name being plain, it is no longer than they are |
| MimeText.LostBlanks | src/common/mime.c:552-582 | two headers that are not shown as they are |
| MimeText.FitMeansEveryLine | src/common/mime.c:410-441 | the running column bounds every line of the output |
| MimeTokens.HeaderUnfold | src/common/mime.c:805-834 | the unfolding loop computes `Unfold`, which the next two rows describe |
| MimeTokens.UnfoldFolds | src/common/mime.c:805-834 | a text cut by runs of line ends, any number of them, is unfolded to its lines put together, with a space between two of them exactly when neither brings a blank |
| MimeTokens.UnfoldSolid | src/common/mime.c:805-834 | unfolding keeps every byte but line ends and blanks, in order |
| MimeTokens.UnfoldHasNoBreaks | src/common/mime.c:805-834 | an unfolded header has no line breaks |
| MimeTokens.TokensCover | src/common/mime.c:844-894 | the tokens one after the other are the header up to trailing blanks |
| MimeTokens.TokensSolid | src/common/mime.c:844-894 | the tokens of a folded header hold every byte of it but line ends and blanks, in order |
| MimeTokens.ExpectedInk | src/common/mime.c:689-727 | what a reader is to be shown holds every byte of the tokens but white space, in order |
| MimeTokens.TokensOfFlat | src/common/mime.c:844-894 | blanks and a word, any number of times, are cut into just these tokens |
| MimeReader.ReaderFindsWords | src/common/mime.c:400-441 | in the bytes of any list of plain pieces, encoded-words and line ends as the encoder puts them out, a reader by RFC 2047 finds just the encoded-words that are meant, exactly when none of them is empty or has a question mark in its text and no plain piece has a run that looks like an encoded-word |
| MimeReader.ReaderShows | src/common/mime.c:844-894 | what the reader then shows of the bytes is what the pieces are meant to show |
| MimeReader.OutputIsAscii | src/common/mime.c:400-441 | what the encoder puts out is in seven bits |
| MimeReader.WordRead | src/common/mime.c:423-441 | an opening mark, a text and a closing mark are taken for an encoded-word exactly when the text is not empty and has no question mark |
| MimeReader.UnderscoreIsBlank | src/common/mime.c:606-629 | the reader takes an underscore in Q text for a blank, which is why the encoder must not leave one as it is |
| MimeTokens.Utf8Split | src/common/mime.c:461-478 | valid UTF-8 cut at a character's first byte is valid on both sides |
| MimeTokens.Utf8ShortRuns | src/common/mime.c:461-478 | valid UTF-8 has at most three continuation bytes in a row |
| MimeHeader.HeaderEnc | src/common/mime.c:844-894 | every line fits the limit, every line after the first starts with a blank, the output is in seven bits, for Q with UTF-8 no encoded-word starts inside a character; the tokens hold every byte of the header but line ends and blanks, and just those in seven bits that fit a line go out as they are; a reader of the output finds the encoded-words meant exactly when no Q-encoded token has a question mark, no plain one looks like an encoded-word and no encoded-word is empty, and is then shown what the tokens ask for and every byte of the header but white space, except for bytes overwritten, of which there are none unless a token of a blank and one eight-bit byte follows an encoded one; the tokens near which an encoded-word can be empty; in a header in UTF-8 every encoded-word stands for whole characters, unless the encoding is B and two encoded tokens adjoin |
| MimeHeader.Utf8HeaderOk | src/common/mime.c:844-894 | every header in UTF-8 meets the conditions, for both encodings, and its tokens are UTF-8 |
| MimeHeader.Utf8NameIs | src/common/mime.c:459-478 | the charset whose characters are kept whole is utf-8 in any case |
| MimeHeader.HeaderShown | src/common/mime.c:844-894 | what the tokens ask for is the header, but for blanks at its end, exactly when every token keeps the blanks before it |
| MimeExamples.QuestionMarkMisread | src/common/mime.c:170-183 | a Q-encoded token with a question mark, shown as the raw encoded-word |
| MimeExamples.PlainMisread | src/common/mime.c:552-582 | a plain token that a reader decodes |
| MimeHeader.FeedTokens | src/common/mime.c:844-894 | token by token, shown and pending bytes together are what the tokens fed so far ask for, but for the bytes overwritten, and those only after such a short token; the loop feeds all tokens |
| MimeHeader.WordState.WordEnc | src/common/mime.c:689-727 | one token more is shown or pending, in order, exactly unless pending bytes meet a blank and one eight-bit byte on a full line, and then just the pending bytes are lost; an empty encoded-word is closed exactly under a condition on the token and the line position; UTF-8 goes on in whole characters exactly unless a begun one is pending that finds no room for a quantum |
| MimeHeader.WordState.EncodeAll | src/common/mime.c:704-727 | the whole token is taken, across line breaks and new encoded-words; the refill loop makes progress |
| MimeHeader.WordState.EncB64 | src/common/mime.c:483-542 | what is shown and pending grows by exactly the bytes taken, unless the stated loss condition holds, and then exactly the pending bytes go |
| MimeHeader.WordState.AddReminder | src/common/mime.c:351-384 | pending bytes are topped up to a quantum or left alone; when both are dropped |
| MimeHeader.WordState.EncQp | src/common/mime.c:646-668 | the octets taken are shown; a line break never comes inside a character |
| MimeHeader.WordState.FlushTail | src/common/mime.c:631-641 | the rest of a character is put out within the limit |
| MimeHeader.WordState.LineBreak | src/common/mime.c:410-421 | a line break closes the word and changes nothing a reader is shown |
| MimeHeader.WordState.WordStart | src/common/mime.c:423-441 | a new word shows at most one blank and leaves room for a quantum |
| MimeHeader.WordState.SwitchToPlain | src/common/mime.c:443-458 | pending bytes are flushed before plain text |
| MimeHeader.WordState.SevenBitTry | src/common/mime.c:552-582 | a seven-bit token within the limit goes out as it is; others are left to be encoded |
| MimeHeader.WordState.End | src/common/mime.c:768-798 | the last flush loses nothing and the result ends in a line end |
| MimeExamples.LostByte | src/common/mime.c:386-398 | the output for a header of three tokens shows one byte less than the header has |
| MimeExamples.LosingIsHeader | src/common/mime.c:844-894 | that header unfolds to itself, is cut into those tokens, and should be shown whole |
| MimeExamples.WriteEmptyWord | src/common/mime.c:423-441 | with either encoding the output for a header of three tokens has an encoded-word without text, and a reader does not find the encoded-words meant |
| MimeExamples.EmptyingIsHeader | src/common/mime.c:844-894 | that header unfolds to itself, is cut into those tokens, and should be shown whole |
| MimeExamples.SplitCharacter | src/common/mime.c:351-384 | the B-encoded output for a header of four tokens in UTF-8 has an encoded-word that is not made of whole characters |
| MimeExamples.SplittingIsHeader | src/common/mime.c:844-894 | that header is UTF-8, unfolds to itself, is cut into those tokens, and should be shown whole |
| FtnNode.GetNumber | src/common/parsenode.c:37-57 | the digit loop gives the number's value and the place after it |
| FtnNode.ParsePartialText | src/common/parsenode.c:62-134 | the cursor parser, against its definition by parts |
| FtnNode.DiffReadBack | src/common/node.c:187-267 | a printed difference is read as the address whenever the reader's previous address agrees in the parts left out |
| FtnNode.DiffShape | src/common/node.c:246-267 | a difference is empty exactly for the same node with point 0, and is made of digits and address signs |
| FtnNode.AddressReadBack | src/common/parsenode.c:190-244 | a full address with its domain is read back whole |
| StrTok.Tokenizer.NextToken | src/common/strtok_r.c:53-106 | the next of the line's tokens, and none exactly when none is left |
| StrTok.CutToken | src/common/strtok_r.c:53-106 | skipping, quoting, unescaping and cutting, against their definition |
| StrTok.QuotedReadBack | src/common/strtok_r.c:70-90 | a text put between quotes is read back, with the rest of the line intact, exactly when it has no quote and does not end in a backslash |
| StrTok.EscapedReadBack | src/common/strtok_r.c:70-90 | a text with a backslash put before each quote is read back from between quotes, when it does not end in a backslash |
| StrTok.WordReadBack | src/common/strtok_r.c:92-106 | a printed word with a blank after it is the next token |
| StrTok.WordBetween | src/common/strtok_r.c:53-106 | each of space, tab, line feed and carriage return ends a word, and is skipped before one |
| NodeList.SortIsUnique | src/common/node.c:554-573 | any sorted rearrangement is the same list, so the choice of sorting algorithm cannot show |
| NodeList.SortSorts | src/common/node.c:554-573 | the sorted list is a permutation, ascending by zone, net, node and point |
| NodeList.PrintSorted | src/common/node.c:578-600 | the printing loop puts out each run of equal addresses once, with the separators it really writes |
| NodeList.PrintPassive | src/common/node.c:605-620 | the comma-separated list of differences |
| NodeList.ReadPassive | src/common/areasbbs.c:154-179 | the comma loop, against its definition |
| NodeList.ListReadBack | src/common/areasbbs.c:124-149 | a printed list is read as the arranged list without repetitions and without what printed as nothing |
| NodeList.PassiveReadBack | src/common/areasbbs.c:154-179 | a printed passive list is read up to the first address that printed as nothing |
| NodeList.VisibleAll | src/common/node.c:246-267 | nothing is missing exactly when no address is point 0 of the node before it |
| NodeList.LossIsBeforeTheSorted | src/common/node.c:578-600 | an address can only vanish among the uplinks or as the first sorted one |
| NodeList.Settled | src/common/node.c:554-600 | a list arranged and merged once is arranged and merged for good |
| NodeList.TextSettles | src/common/node.c:578-600 | printing the merged list gives the same text exactly when the list did not end in a repetition |
| AreasBbs.LineReadBack | src/common/areasbbs.c:184-289 | a printed line is parsed into the entry in normal form, all options included |
| AreasBbs.ReadsBackFaithfully | src/common/areasbbs.c:184-396 | read back, an entry is the same but for the order of its other links and its uplinks are its uplinks, exactly when nothing is lost, no uplink repeats the one before, it knows its zone, is not read-only and has no half address |
| AreasBbs.UplinksKept | src/common/node.c:578-600 | for every entry: the uplinks come back as the uplinks exactly when each one is printed and differs from the one before, but for the one coincidence |
| Uplinks.UplinksBack | src/common/node.c:578-600 | the same of any list printed after any address |
| AreasBbs.RewriteIsIdentical | src/common/areasbbs.c:357-396 | written again, the line is byte for byte the same exactly when no address was lost, the zone was known and the links did not end in a repetition |
| AreasBbs.NormalIsStable | src/common/areasbbs.c:184-396 | an entry read back loses nothing more; a second reading merges what repetitions are left, exactly then changing it, and a third changes nothing |
| AreasBbs.NormalIsWellFormed | src/common/areasbbs.c:184-289 | an entry read back can be written again |
| AreasBbs.OptionsApplied | src/common/areasbbs.c:220-285 | the option loop takes option and value in turn and stops at the first address |
| Decimal.AtoiIs | src/common/areasbbs.c:224-279 | a number option: white space, a sign and digits, whatever follows |
| AreasBbs.LostUplink | src/common/node.c:246-267 | an entry of two uplinks that comes back with one |
| AreasBbs.DownlinkPromoted | src/common/node.c:578-600 | an entry whose downlink comes back among the uplinks |
| AreasFile.ParseLine | src/common/areasbbs.c:184-289 | the parsing method, token by token, against its definition on the tokens |
| AreasByHand.FlagsRead | src/common/areasbbs.c:184-289 | with any flags and options before the first address: passed through exactly when the directory starts with a number sign or `-#` is among them, read-only exactly when `-r` is; all else is that of the line without the flags |
| AreasByHand.BareOption | src/common/areasbbs.c:220-285 | an option at the end of the line without its value: none for key, description and state, nothing for passive links, a null pointer read elsewhere |
| AreasByHand.LineOfLinks | src/common/areasbbs.c:124-289 | a line of addresses, each as it differs from the one before and the first from the own zone: its entry, all fields; a mark makes the address before it passive |
| AreasByHand.LinksRead | src/common/areasbbs.c:124-149 | the same of the address loop, behind any addresses read before |
| AreasByHand.EverywhereEnds | src/common/parsenode.c:62-134 | the words for all nodes, in any case, are no address and end a list |
| AreasByHand.AddressOption | src/common/areasbbs.c:220-223 | an area's own address: without its zone it has the default one, without its point point 0; a domain is kept |
| AreasByHand.PrintedLine | src/common/areasbbs.c:357-396 | an entry with every option, and its line letter by letter |
| AreasByHand.EarlyTime | src/common/areasbbs.c:357-396 | a negative time is printed as an unsigned number of 64 bits |
| AreasByHand.WideAddresses | src/common/parsenode.c:190-244 | what is printed of no address and of addresses for all nodes |
| AreasByHand.HalfAddresses | src/common/parsenode.c:190-244 | what is printed of addresses with parts missing |
| AreasFile.AddString | src/common/areasbbs.c:124-149 | the address loop with its marks for passive links, against its definition |
| AreasFile.PrintLine | src/common/areasbbs.c:362-393 | the printing statements put out the defined line |
| AreasFile.Areas.Init | src/common/areasbbs.c:297-352 | the entries of the file's lines are appended in order, the first line kept apart |
| AreasFile.Areas.Print | src/common/areasbbs.c:357-396 | the whole text of the file |
| AreasFile.FileReadBack | src/common/areasbbs.c:297-396 | reading a written file gives its first line and every entry in normal form |
| AreasFile.FileRewrite | src/common/areasbbs.c:357-396 | written, read and written again, the file is identical exactly when every entry lost no address and knew its zone and no list ended in a repetition |
| OutPkt.Deliver | src/common/outpkt.c:151-308 | for any sequence of opens and writes, then a close: every key has one finished packet with one header, its messages in order and one zero word, in the directory for bad packets exactly when its key is bad, its name made of grade, type, flavour and the next number; no temporary file is left and no other file touched |
| OutPkt.Pool.Open | src/common/outpkt.c:210-264 | the key's entry is found or added, its file live, the limit kept |
| OutPkt.Pool.CloseLeast | src/common/outpkt.c:151-179 | the open packet with the fewest messages is closed, the last of equals; the counter stays exact |
| OutPkt.Pool.Fopen | src/common/outpkt.c:186-205 | from any number of open files opening makes room first and ends within the limit, exactly when the limit is at least one; when one has to go it is the least used |
| OutPkt.Pool.Close | src/common/outpkt.c:269-308 | from any sound pool and limit, every packet is finished and renamed and no freed entry is met, exactly when every entry found closed can be reopened: there is room for it, or it is the first and the limit at least one; within the limit that is always so |
| OutPkt.Pool.CloseOne | src/common/outpkt.c:273-301 | one round ends, renames and frees one entry, reopened if need be; afterwards there is room |
| OutPkt.LoweredLimit | src/common/outpkt.c:143-146 | three packets, the limit lowered from two to one: closing goes astray |
| OutPkt.FileNameInjective | src/common/outpkt.c:99-138 | distinct sequence numbers or extensions give distinct file names, whatever the keys |
| OutPkt.FileNameIs | src/common/outpkt.c:99-138 | a packet's name letter by letter: directory, slash, grade, type, flavour, five hexadecimal digits, extension |
| OutPkt.NumberInjective | src/common/outpkt.c:111-114 | fewer than 2^20 packets get distinct numbers |
| PktBody.PktGetLine | src/common/message.c:50-136 | the byte loop into the caller's buffer, against its definition, with the file position and the terminator |
| PktBody.PktGetBody | src/common/message.c:146-164 | the lines, the kind of end and the bytes read |
| PktBody.BodyReadBack | src/common/message.c:50-164 | through a buffer of any size from 4 on, a body without zero bytes is read back and the reader stops right after its end, exactly when the body does not end in an unpaired byte 2 |
| PktBody.BodyLines | src/common/message.c:95-108 | for a body that ends in an unpaired byte 2: the lines without that byte, the kind of end and the place reported wrongly; for all others the whole body |
| PktBody.LineKeeps | src/common/message.c:50-136 | for any bytes, zeros and bytes 2 among them, and any buffer: a line holds what was read for it but zero bytes and the mark of the next message |
| PktBody.BodyKeeps | src/common/message.c:146-164 | the same of a whole body, but for a CR LF at its end |
| PktBody.LineIsFirstEnd | src/common/message.c:50-136 | in text without bytes 0 and 2 a line ends at the first place where the buffer is full or a CR with all LFs behind it has been read |
| PktBody.BodyEnds | src/common/message.c:146-164 | through a buffer of any size from 4 on, a CR LF is added exactly when the body has a last line that is ended neither by a CR with LFs behind it nor by a full buffer |
| PktHeader.HdrReadBack | src/common/packet.c:738-1033 | a header that fits is accepted and read back as it was exactly under the stated conditions on date, version, zones, capability word and net |
| PktHeader.FilledSurvives | src/common/packet.c:977-990 | a header filled in by pkt_put_hdr is read back with its addresses, time and password, as type 2+, with no baud rate and capability word 1 |
| PktHeader.HdrBytes | src/common/packet.c:992-1033 | the 58 bytes of a header, each field where FTS-0001 and FSC-0039 have it |
| PktHeader.PktGetHdr | src/common/packet.c:738-942 | the sequence of reads, against its definition by position; an early end of file is an error |
| PktHeader.PutPadded | src/common/packet.c:963-972 | the string, cut or padded with zeros |
| PktHeader.WordReadBack | src/common/packet.c:569-717 | a word written low byte first is read back modulo 2^16 |
| PktFile.PktGetString | src/common/packet.c:407-431 | what the buffer holds, how many bytes were read, and that the terminator is missing exactly when the string is one shorter than the buffer |
| PktFile.PktGetMsgHdr | src/common/packet.c:482-507 | the fields of a message header, with the strict check of their lengths |
| PktFile.MsgHdrReadBack | src/common/packet.c:482-698 | a written message header is read back; a name is itself when it has fewer than 36 bytes, else its first 35, the subject itself with fewer than 72, else its first 71 |
| PktFile.MsgHdrBytes | src/common/packet.c:645-698 | the bytes of a written message header, each field where FTS-0001 has it |
| PktFile.AnyHdrRead | src/common/packet.c:482-507 | a message header by anyone, names of any length: refused exactly when strict and too long, else the names up to the buffer size, without a terminator at exactly 143 bytes |
| PktFile.ReadMsgs | src/toss/ftnpack.c:619-641 | the reading loop, message by message |
| PktFile.MsgPutMsgBody | src/common/message.c:751-766 | the parts of a body in their order and a zero byte |
| PktFile.PacketReadBack | src/common/packet.c:482-1033 | a whole packet, header, any list of messages with names and subjects cut as stated there, and final zero word, is read back, the reader standing right after it |
| Delivery.DeliveredReadBack | src/common/outpkt.c:210-308 | for any sequence of posts to any keys: the finished file of a key is read back as its header and exactly the messages posted to it, in order, up to the last byte |
| Delivery.PacketIs | src/common/outpkt.c:210-264 | the bytes of a key's packet are its header and the messages posted to it |
| MsgId.RoundTrip | src/common/msgid.c:149-410 | an FTN id goes to RFC form and back unchanged exactly when it has no CR and its RFC form fits the buffer |
| MsgId.Injective | src/common/msgid.c:149-274 | two such ids never share an RFC form |
| MsgId.DequoteQuote | src/common/mime.c:74-97 | dequoting undoes quoting for every string |
| MsgId.QuoteHasNoMarks | src/common/msgid.c:71-86 | quoted text has no angle bracket and no at sign |
| MsgId.TakesAll | src/common/msgid.c:71-86 | when the quoting loop reaches the end of its input |
| MsgId.MimeQuote | src/common/msgid.c:71-86 | the loop over the buffer, against its definition |
| MsgId.MimeDequote | src/common/mime.c:74-97 | the loop over the buffer, against its definition |
| MsgId.RfcStyleIsWildmat | src/common/msgid.c:225-232 | the check for ids that are RFC ids already is the glob pattern's meaning |
| MsgId.CutIsNoId | src/common/msgid.c:333-350 | an id cut before its closing bracket is refused |
| MsgIdForm.EncIs | src/common/msgid.c:71-86 | what stands for each character: an underscore for a blank, letters, digits and some marks as they are, the number of anything else |
| MsgIdForm.DequoteIs | src/common/mime.c:74-97 | what each kind of text is dequoted to, digits of either case, line ends and stray equals signs included |
| MsgIdForm.WordIsOrigin | src/common/msgid.c:188-199 | the origin of an id is its first word |
| MsgIdForm.QuotedIsOrigin | src/common/msgid.c:165-187 | or the text in quotes it starts with, doubled quotes single |
| MsgIdForm.ZoneIs | src/common/msgid.c:236-252 | the zone of the first address in the origin, the default zone when it has none, the own zone without an address |
| MsgIdForm.DomainIs | src/common/msgid.c:91-101 | FidoNet's domain for zones 1 to 6, the configured one without its leading dot for others |
| MsgIdForm.FormIs | src/common/msgid.c:254-266 | the RFC form of an id that fits, piece by piece |
| MsgIdForm.OldHexIs | src/common/msgid.c:361-380 | an old-style id: one to eight hexadecimal digits, not starting with 0, and a percent sign or nothing behind them |
| MsgIdForm.RfcIs | src/common/msgid.c:326-412 | what becomes of the last id in a text: refused, old style, dequoted or hashed |
| MsgIdForm.RfcStyleText | src/common/msgid.c:225-232 | the check for RFC ids is the meaning of that pattern's text |

## Left out

- I/O errors, `aborted` states, locking and the clock: files are byte sequences that can be read and written; header times, message dates and sequence numbers are parameters.
- The byte-order map of the index, `dbzagain`, `dbzcancel`, read-only opening, and tag masks other than the default ones or none.
- `hi_write_dbc`, `hi_fetch` and the other users of the index; a history starts empty (with any configuration) in `HistoryRun.Run`, while `Dbz.Database.OnDisk` accepts any consistent disk state.
- HistDb.History.WriteT: every write is flushed; the `dont_flush` variant and the time columns' width are not modelled.
- Wildmat.Match: only patterns with closed brackets and no trailing backslash; what is read behind the subject is not modelled beyond the fact that it is read.
- MimeHeader.HeaderEnc: buffer sizes, and charset names longer than 56 bytes; a header must begin with its name, not with a space; for Q with UTF-8 the tokens must be whole characters; the replacement of line ends in `mime_7bit_try`, which never finds one, is left out.
- MimeReader.ReaderFindsWords: comments and quoted strings are not told apart, and the charset is not decoded. FIDOGATE's own reader of encoded-words, `mime_handle_mimed_word`, is another one, which takes an empty text too and ends every text at its first question mark; it is not part of this model.
- Decoding of headers, quoted-printable bodies, multipart bodies and charset recoding.
- FtnNode.AddressReadBack: the text must fit the 48 bytes `str_znfp_print` is given; addresses in lists carry no domain, as the printer drops it.
- AreasBbs.LineReadBack: numbers are unbounded integers; the uplink count fits a short; entries without any directory or with blanks in their words are not printed readably and are excluded.
- AreasFile.Areas.Print: a file that never had a first line is excluded, where the source prints a null pointer.
- NodeList.Sort: the C library's qsort is a function; its result is determined.
- `StrTok.Tokenizer` keeps the unread text instead of writing zero bytes into the line.
- Message statistics, areafix, and the other fields of an areas.bbs entry that are not in the file.
- PktFile.PacketReadBack: kludge lines written by `pkt_put_msg_hdr` count as part of the body; the writers of headers and messages are functions; product-specific data is read and dropped, as in the source.
- PktHeader.PktGetHdr: conversion between broken-down and calendar time.
- MsgId.RoundTrip: without the database of foreign ids; `inet_to_ftn` and the zone table are parameters; the origin address is taken apart by functions instead of in place.
- The hash is that of the source, with its table as computed there; nothing is claimed about its quality.
