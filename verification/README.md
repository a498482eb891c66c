# A verified model of the Miasma bridge and web client

Miasma dissolves a file into shares and finds it again by a content identifier, the MID. This project
models the self-contained logic of two parts of it, the BitTorrent bridge (Rust) and the browser client
(JavaScript, with the WebAssembly boundary in Rust), and proves what that logic promises.

| module | models |
|---|---|
| `Bencode`, `BencodeLaws`, `BencodeLoops`, `BencodeDicts`, `BencodeErrors`, `Decimal` | the bencoding codec of the bridge (the "bencoding" section of BEP 3): round trips, dictionaries with repeated keys, every refusal |
| `Torrent`, `TorrentLaws`, `Metadata`, `MetadataLaws` | file lists of torrents, and the exchange of metadata pieces (BEP 9) |
| `XorMetric`, `Sorting`, `DhtReply`, `DhtReplyLaws`, `DhtLookup`, `DhtLaws`, `DhtComplete` | the iterative lookup of peers (BEP 5): what is sent, what is known, when it ends |
| `CivilDate` | the date text of a timestamp |
| `Radix`, `Base58`, `Base58Laws`, `Mid` | the two base58 decoders and the key they both make |
| `Base64`, `Base64Laws`, `Base64Url`, `WebSig`, `WebSigHeader` | the texts of signed requests |
| `WebSession`, `WebSessionLaws`, `WebSessionExact`, `SessionClient`, `BridgeAuth`, `BridgePage` | the signing session, with the very times that are signed, and the page that uses it |
| `ServiceWorker`, `ServiceWorkerFiles`, `ServiceWorkerRuns`, `ServiceWorkerAlone`, `ServiceWorkerShape`, `ServiceWorkerLaws`, `ServiceWorkerHonest`, `ServiceWorkerFallback` | the cache protocol of the service worker: its steps, which bodies match, histories, lone installs and activations, what every run keeps whatever the manifests list, what any overlap of agreeing manifests keeps, when the marker tells the truth, when a cache is left to fall back on |
| `Frames`, `ShareBundle`, `DissolveBundle`, `DissolveLaws` | the two binary formats between page and WebAssembly module |
| `ShareRows`, `ShareStore`, `ShareJourney` | rows of the browser's database, their upgrade, and the way of shares through the browser |
| `PasswordPolicy`, `PasswordGenerator`, `PasswordFairness` | the password policy in both editions, and unbiased generation |
| `Strip` | the progress strip |

`Basics` holds bytes, `Option`, `Result` and the lexicographic order, `Texts` joining and splitting at a character. `dafny verify dfyconfig.toml` checks everything.

## How to read the model

- Code made of expressions is a function; a loop that updates variables is a method proved equal to a
  function (or to a closed form), and the theorems are about that function. Objects whose fields change
  (`SessionClient.Client`, `BridgePage.Bridge`, `ShareStore.ShareDb`) are classes.
- What is not this code's own is a parameter or an input: the network's answers, clocks, random draws,
  UTF-8 decoding, JSON parsing, SHA-256, signatures, and whether the browser's storage works. A theorem holds for every choice.
- Integers are mathematical. Where a width matters it is written out: `i64` and `usize` bounds in `Decimal`,
  `as u64` in `Torrent`, the low 16 and 32 bits in `Frames`. `usize` has 64 bits. The sum `start + len` in
  `decode_bytes` (crates/miasma-bridge/src/bencode.rs:116) is the error `LengthOverflow` where the source would panic or wrap;
  no input is accepted then.
- Different messages of one Rust error (bad UTF-8, bad integer) are one constructor.
- Clock offsets of the session are reals: rounding of floating-point numbers is not modelled.

## Where the code and its words differ

The model follows the code.

- web/sw.js says that activation deletes every other Miasma cache; it deletes every cache of the origin but its own.
- web/sw.js relies on the marker being written last, and on every file being stored as the manifest lists it. A name in a manifest may lead
  to the URL of the marker, which then marks the cache before its manifest is stored; to that of `asset-manifest.json`, which the manifest
  text then overwrites; or to the URL of another name, and then the last of them decides what is stored. Without overlapping installs of
  one version every run is honest exactly when, in every manifest whose files can be fetched, no name leads to the marker, a name that
  leads to the manifest gives the hash of that very text, and of names that lead to one URL the last admits nothing that another refuses
  (`ServiceWorkerHonest.HonestExactlyWhen`). With any overlap it is exactly when no name leads to the marker or the manifest, and all
  such manifests of one version, each with itself too, admit the same content wherever names of theirs lead to one URL
  (`ServiceWorkerHonest.HonestInAnyRunExactlyWhen`). Neither theorem assumes anything else of the manifests. The failing inputs are
  `ListedMarkerIsDishonest`, `ListedManifestIsDishonest`, `SharedPathIsDishonest`, `ListedManifestInOverlap` and `ConflictInOverlap`.
- web/sw.js says that a failing install leaves the previous cache in place. An event leaves no complete cache where there was one exactly
  when it is a step that deletes the only usable name: an install clearing or rolling back its own, or an activation deleting one it
  listed (`ServiceWorkerFallback.FallbackLostExactlyWhen`, for all manifests and all runs). If no install begins for a version already
  complete, no two installs of one version overlap and no two activations overlap, that never happens exactly when no manifest whose
  files can be fetched lists the marker (`FallbackStaysExactlyWhen`): a listed marker makes the cache complete before its time, and a put
  that then fails rolls it back (`ListedMarkerLosesTheFallback`). When any one of the three is dropped and the other two are kept it
  happens from a fresh start, whatever the manifests list (`ReinstallLosesTheFallback`, `TwoInstallsLoseTheFallback`,
  `OverlapLosesTheFallback`).
- The save key and the lookup key of a MID agree for 32-byte digests, but not for every text both functions accept:
  `Mid.KeysAgreeExactlyWhen` says for which.
- No address is asked twice in a lookup if the seed addresses are distinct, and for up to eight seeds only then, since the source does not
  remove duplicates among seeds: `DhtLaws.AskedOnceExactlyWhen`, `DhtLaws.UnnamedSeedsInOrder`.
- `parseDissolveBundle` accepts two spellings of each bundle: `TextDecoder` drops a byte order mark before the MID text. The input is the
  print of the result exactly when there is no mark at offset 6: `DissolveLaws.ParsesOnlyPrints`, `DissolveLaws.MarkedPrintIsParsedAlike`.
- `shareToPortableJson` loses the bytes of a share that has none, in the sense that an empty array becomes an empty text, which is read
  back as no bytes at all: `ShareRows.PortableKeepsBytes`.

## Model

| member | source | states |
|---|---|---|
| `Decimal.ParsePrintInt` | crates/miasma-bridge/src/bencode.rs:98-106 | every `i64`, printed as Rust prints it, is parsed back |
| `Decimal.PrintIsShortest` | crates/miasma-bridge/src/bencode.rs:108-118 | no digits that spell a number are fewer than its printed ones |
| `BencodeLaws.DecodeEncode` | crates/miasma-bridge/src/bencode.rs:45-157 | an encoding followed by any bytes decodes to the value and those bytes exactly when the value's height is within the budget, and is refused for its depth otherwise |
| `BencodeLaws.PrefixFree` | crates/miasma-bridge/src/bencode.rs:70-96 | no encoding is a proper prefix of another |
| `BencodeLaws.DecodeSound` | crates/miasma-bridge/src/bencode.rs:53-67 | whatever is accepted has sorted distinct keys, integers in range, and a height within the budget |
| `BencodeLaws.DecodeExtends` | crates/miasma-bridge/src/bencode.rs:53-157 | appended bytes only extend the remainder, and a larger budget changes nothing |
| `BencodeLaws.DecodeConsumes` | crates/miasma-bridge/src/bencode.rs:53-157 | the remainder is a proper suffix, and what was read is at least as long as the value's encoding |
| `BencodeLaws.ReEncode` | crates/miasma-bridge/src/bencode.rs:49-157 | whatever an accepted input looked like (leading zeros, `+`, unsorted or repeated keys), its value re-encodes to no more bytes, which decode to the same value again at the full depth |
| `BencodeLaws.InsertKeepsSorted` | crates/miasma-bridge/src/bencode.rs:140-157 | inserting into a dictionary keeps its keys sorted and distinct and adds nothing else; what is then found is `BencodeDicts.InsertGets` |
| `BencodeDicts.InsertGets` | crates/miasma-bridge/src/bencode.rs:140-157 | after an insert the key has the new value, and every other key what it had |
| `BencodeDicts.DecodeAnyEntries` | crates/miasma-bridge/src/bencode.rs:140-157 | printed entries in any order and with keys repeated are read as a dictionary with sorted keys that holds, under each key, the value of its last occurrence |
| `BencodeDicts.LastsDetermine` | crates/miasma-bridge/src/bencode.rs:140-157 | there is only one such dictionary |
| `BencodeDicts.GetIs` | crates/miasma-bridge/src/bencode.rs:40-42 | looking a key up finds a value exactly when the entry is in the dictionary |
| `BencodeErrors.ParsesExactly` | crates/miasma-bridge/src/bencode.rs:98-106 | an integer is accepted exactly when it is digits with at most one sign, leading zeros allowed, that spell an `i64` |
| `BencodeErrors.ParsesLengths` | crates/miasma-bridge/src/bencode.rs:108-116 | a length is accepted exactly when it is digits after at most a plus sign that spell a `usize` |
| `BencodeErrors.DigitsAreDecimal` | crates/miasma-bridge/src/bencode.rs:98-116 | digits are read in base ten, the most significant first |
| `BencodeErrors.FormatIs` | crates/miasma-bridge/src/bencode.rs:45-96 | the letters of the four forms, the sign, and the depth of 64 |
| `BencodeErrors.FirstByteErrors` | crates/miasma-bridge/src/bencode.rs:53-67 | what is refused for its depth, for being empty or for its first byte |
| `BencodeErrors.IntegerErrors` | crates/miasma-bridge/src/bencode.rs:98-106 | an integer is unterminated exactly without an `e`, and else refused exactly for its spelling |
| `BencodeErrors.StringErrors` | crates/miasma-bridge/src/bencode.rs:108-124 | which string is refused for its colon, its length, an overflow or too few bytes, each exactly when |
| `BencodeErrors.ListErrors` | crates/miasma-bridge/src/bencode.rs:126-138 | after any items, a list that stops is unterminated, and what is wrong with the next item is what is wrong with the list |
| `BencodeErrors.DictErrors` | crates/miasma-bridge/src/bencode.rs:140-157 | the same for dictionaries: the next key, or else the next value |
| `BencodeLoops.EncodeValue` | crates/miasma-bridge/src/bencode.rs:70-96 | the appending encoder computes the encoding of the laws |
| `BencodeLoops.EncodeListLoop` | crates/miasma-bridge/src/bencode.rs:78-85 | the list loop appends the encodings of the items, in order |
| `BencodeLoops.EncodeDictLoop` | crates/miasma-bridge/src/bencode.rs:86-94 | the dictionary loop appends keys and values, in key order |
| `BencodeLoops.DecodeValue` | crates/miasma-bridge/src/bencode.rs:53-67 | the decoder with its loops computes the decoding of the laws, with the same errors |
| `BencodeLoops.DecodeListLoop` | crates/miasma-bridge/src/bencode.rs:126-138 | the loop over items reads what the recursive reading does |
| `BencodeLoops.DecodeDictLoop` | crates/miasma-bridge/src/bencode.rs:140-157 | the loop over keys and values reads what the recursive reading does, which keeps the last value of each key (`BencodeDicts.DecodeAnyEntries`) |
| `Torrent.ParseInfoDict` | crates/miasma-bridge/src/bridge.rs:1279-1332 | the loops compute the file list of the decoded info dictionary; what that list is, and which error stands for which defect, is stated in `TorrentLaws` |
| `Torrent.ParseTorrentFileInfo` | crates/miasma-bridge/src/bridge.rs:1080-1091 | re-encoding the info dictionary and reading it again gives the list of reading it directly |
| `Torrent.InfoReadsBack` | crates/miasma-bridge/src/bridge.rs:1080-1091 | the info dictionary of an accepted torrent re-encodes to bytes that decode to it, so the detour never fails |
| `Torrent.SameTorrentSameFiles` | crates/miasma-bridge/src/bridge.rs:1080-1091 | the list does not depend on how the torrent was spelled nor on what follows it |
| `TorrentLaws.WrittenInfoIsListed` | crates/miasma-bridge/src/bridge.rs:1279-1332 | a written info dictionary, with anything after it, is read as one entry for each file, in order: the name and the parts with slashes between them, and the size |
| `TorrentLaws.WrittenSingleIsListed` | crates/miasma-bridge/src/bridge.rs:1279-1332 | the same for a single file |
| `TorrentLaws.ManyFiles` | crates/miasma-bridge/src/bridge.rs:1284-1315 | of any info dictionary with a list of usable entries: as many files as entries, in their order, each with the path and size of its entry |
| `TorrentLaws.OneFile` | crates/miasma-bridge/src/bridge.rs:1316-1329 | without a list: one file, of the name or the default, and the length |
| `TorrentLaws.PathIsJoined` | crates/miasma-bridge/src/bridge.rs:1307-1313 | a path is the name and those parts that are text, joined with slashes |
| `TorrentLaws.PathSplits` | crates/miasma-bridge/src/bridge.rs:1307-1313 | name and parts without slashes are found again by splitting the path |
| `TorrentLaws.ErrorsAre` | crates/miasma-bridge/src/bridge.rs:1284-1329 | each of the four errors is reported exactly for its defect, the first bad entry deciding, and no other error is |
| `TorrentLaws.CastIs` | crates/miasma-bridge/src/bridge.rs:1296-1300 | a negative length becomes the number that differs from it by 2^64 |
| `TorrentLaws.TorrentIsItsInfo` | crates/miasma-bridge/src/bridge.rs:1080-1091 | in a torrent the list is that of its info dictionary, whatever else the torrent holds and whatever follows it |
| `TorrentLaws.NoInfo` | crates/miasma-bridge/src/bridge.rs:1080-1091 | bytes that are no value are malformed, and the info dictionary is missing exactly when there is no value for it |
| `Metadata.FetchPieces` | crates/miasma-bridge/src/bridge.rs:1206-1273 | the piece loop computes the exchange, and a success is never longer than the declared size |
| `Metadata.FetchUtMetadata` | crates/miasma-bridge/src/bridge.rs:1178-1273 | the handshake is checked first, then the pieces are exchanged |
| `Metadata.AcceptPieceMessage` | crates/miasma-bridge/src/bridge.rs:1222-1256 | the raw piece after the dictionary of a piece message is recovered exactly |
| `Metadata.HonestExchange` | crates/miasma-bridge/src/bridge.rs:1206-1273 | any order, repetition or interleaving of an honest peer's messages gives the metadata or an incomplete error |
| `Metadata.CompleteExactlyWhenCovered` | crates/miasma-bridge/src/bridge.rs:1206-1265 | the exchange succeeds exactly when every piece arrives within four messages per piece |
| `Metadata.HonestPeerDelivers` | crates/miasma-bridge/src/bridge.rs:1206-1273 | a peer that sends every piece within that budget delivers the metadata |
| `MetadataLaws.WrittenHandshakeIsRead` | crates/miasma-bridge/src/bridge.rs:1178-1204 | a handshake as a peer writes it is read back: the number as a byte, and the size if it is from 1 to ten mebibytes |
| `MetadataLaws.HandshakeIs` | crates/miasma-bridge/src/bridge.rs:1188-1204 | of any decoded handshake that offers the messages and gives a size, or none or a negative one |
| `MetadataLaws.NothingOffered` | crates/miasma-bridge/src/bridge.rs:1188-1195 | a handshake is refused for offering nothing exactly when it names no number |
| `MetadataLaws.NoHandshake` | crates/miasma-bridge/src/bridge.rs:1178-1189 | what is refused for its kind, for being empty or for its bytes, each exactly when |
| `MetadataLaws.AcceptsExactly` | crates/miasma-bridge/src/bridge.rs:1227-1256 | a message carries a piece exactly when it is a data message of the right kind for one of the pieces, and then what follows its dictionary |
| `MetadataLaws.ControlCarriesNothing` | crates/miasma-bridge/src/bridge.rs:1240-1251 | neither a request nor a refusal, nor any other kind, is taken for a piece |
| `MetadataLaws.LastOneCounts` | crates/miasma-bridge/src/bridge.rs:1222-1261 | of several messages for one piece the last one looked at decides; one for which none came stays missing |
| `MetadataLaws.ExchangeIsCut` | crates/miasma-bridge/src/bridge.rs:1263-1273 | the result is the pieces one after the other, cut at the size that was offered |
| `MetadataLaws.CompleteWithinBudget` | crates/miasma-bridge/src/bridge.rs:1222-1265 | the exchange succeeds exactly when each piece is carried by one of the first messages, four for each piece |
| `MetadataLaws.PiecesCover` | crates/miasma-bridge/src/bridge.rs:1207-1208 | there are as many pieces of 16384 bytes as the size needs |
| `XorMetric.XorDistanceLoop` | crates/miasma-bridge/src/bridge.rs:618-625 | the loop computes the byte-wise exclusive or |
| `XorMetric.DistanceIsXor` | crates/miasma-bridge/src/bridge.rs:618-625 | read as a number, the distance is the exclusive or of the keys read as numbers |
| `XorMetric.DistanceOrder` | crates/miasma-bridge/src/bridge.rs:618-625 | comparing distances as arrays compares them as 160-bit numbers |
| `XorMetric.DistanceIsAMetric` | crates/miasma-bridge/src/bridge.rs:618-625 | zero only for equal keys, symmetric, the triangle inequality, and one key per distance |
| `Sorting.SortSorts` | crates/miasma-bridge/src/bridge.rs:665-667 | the sort is sorted and a permutation |
| `Sorting.SortIsStable` | crates/miasma-bridge/src/bridge.rs:665-667 | elements with equal keys keep their order |
| `Sorting.StableSortIsUnique` | crates/miasma-bridge/src/bridge.rs:665-667 | any sorted sequence with the same elements in the same order for every key is the result of this sort, so it stands for `sort_by` |
| `DhtReply.ParseReply` | crates/miasma-bridge/src/bridge.rs:791-840 | the parser collects the peers and nodes of a reply, entry by entry, in all three encodings |
| `DhtReply.ParsePeerBytes` | crates/miasma-bridge/src/bridge.rs:815-821 | peers in one byte string, six bytes each |
| `DhtReply.ParseNodes` | crates/miasma-bridge/src/bridge.rs:824-837 | nodes of 26 bytes each, entries with an unusable address left out |
| `DhtReply.ReadReply` | crates/miasma-bridge/src/bridge.rs:791-852 | a reply that a node writes (peers as a list or as bytes, nodes in compact form) is read back exactly, with anything after it |
| `DhtReplyLaws.CompactIs` | crates/miasma-bridge/src/bridge.rs:842-852 | six bytes or more give the address in the first four and the port in the next two, exactly unless that is zero |
| `DhtReplyLaws.PeersOfListJoin` | crates/miasma-bridge/src/bridge.rs:806-814 | a list gives the addresses of its strings in order; what is no string or no address is passed over |
| `DhtReplyLaws.PeersOfBytesJoin` | crates/miasma-bridge/src/bridge.rs:815-821 | one string gives the addresses of its pieces of six bytes in order; fewer bytes at its end give nothing |
| `DhtReplyLaws.NodesOfBytesJoin` | crates/miasma-bridge/src/bridge.rs:827-836 | pieces of 26 bytes: the identifier, then the address, without which the piece is passed over |
| `DhtReplyLaws.ReplyGives` | crates/miasma-bridge/src/bridge.rs:800-840 | of any reply: peers from `values`, a list or a string, and nodes from `nodes`, a string; nothing from other values |
| `DhtReplyLaws.NoReply` | crates/miasma-bridge/src/bridge.rs:795-803 | what is no dictionary with a reply gives nothing |
| `DhtReplyLaws.KeysAreSpelled` | crates/miasma-bridge/src/bridge.rs:800-827 | the keys of replies, torrents and metadata messages |
| `DhtLookup.DhtGetPeers` | crates/miasma-bridge/src/bridge.rs:634-779 | the loop sends the batches of the lookup and returns its peers, sorted and without repetition; what every lookup asks, knows and ends with is stated in `DhtLaws` and `DhtComplete` |
| `DhtLookup.OneRound` | crates/miasma-bridge/src/bridge.rs:664-772 | one turn sorts, picks, marks, collects, and ends the lookup when nobody is left to ask |
| `DhtLookup.Collect` | crates/miasma-bridge/src/bridge.rs:718-755 | the receive loop adds the peers in order, keeps every candidate, and adds nodes whose address is new |
| `DhtLaws.BatchIsClosest` | crates/miasma-bridge/src/bridge.rs:665-675 | each batch holds at most eight nodes not asked before, the closest first, none farther than any known unasked node left out |
| `DhtLaws.StepKeepsSound` | crates/miasma-bridge/src/bridge.rs:664-772 | a round keeps the invariant: what was asked, what was received, and where every known node came from |
| `DhtLaws.QueriesOfARun` | crates/miasma-bridge/src/bridge.rs:605-779 | over every run: at most 10 rounds and 80 queries, every batch closest, no address in two batches, none asked twice when seed addresses are distinct, every node asked a seed or named by an earlier reply |
| `DhtLaws.PeersOfARun` | crates/miasma-bridge/src/bridge.rs:728-778 | the result is strictly sorted and holds exactly the peers received |
| `DhtLaws.RunEnds` | crates/miasma-bridge/src/bridge.rs:664-772 | a run ends before its last round only with enough peers or with every candidate asked; that the candidates are all seeds and all nodes ever named, by address, is `DhtComplete.LookupEnds` |
| `DhtComplete.LookupEnds` | crates/miasma-bridge/src/bridge.rs:664-772 | every lookup makes its ten rounds, or receives 30 peers, or has asked every seed and every node that any reply named, by address: nothing heard of is forgotten |
| `DhtComplete.KnownInEachRound` | crates/miasma-bridge/src/bridge.rs:664-772 | in every round all seeds and all nodes named before are known, what was known stays known, the replies are those given for the round, and no round but the first begins with 30 peers |
| `DhtComplete.StepRemembers` | crates/miasma-bridge/src/bridge.rs:664-755 | a round keeps the candidates complete: every seed and every named node is among them by address |
| `DhtComplete.PeersJoin` | crates/miasma-bridge/src/bridge.rs:733-736 | the peers of replies are put together in their order |
| `DhtLaws.AskedOnceExactlyWhen` | crates/miasma-bridge/src/bridge.rs:643-716 | with up to eight seeds no address is asked twice exactly when the seed addresses are distinct, whatever is answered |
| `DhtLaws.RepeatedSeedAskedTwice` | crates/miasma-bridge/src/bridge.rs:643-716 | with any number of seeds, an address repeated among the eight closest is asked twice |
| `DhtLaws.UnnamedSeedsInOrder` | crates/miasma-bridge/src/bridge.rs:643-716 | seeds of one identifier, as the source makes them, are first asked in their order, so a repeat among the first eight is asked twice |
| `CivilDate.CivilIsInverse` | crates/miasma-cli/src/chat_cmd.rs:211-231 | for every day count the date is one of the Gregorian calendar, and its day count is that number |
| `CivilDate.CivilCountsDays` | crates/miasma-cli/src/chat_cmd.rs:211-231 | the date of the next day is the next date |
| `CivilDate.CivilIsABijection` | crates/miasma-cli/src/chat_cmd.rs:211-231 | later days have later dates, and every date is reached |
| `CivilDate.CivilStart` | crates/miasma-cli/src/chat_cmd.rs:211-231 | day zero is the first of January 1970 |
| `CivilDate.DayNumberNext` | crates/miasma-cli/src/chat_cmd.rs:215-225 | the reference day count grows by one from each date to the next |
| `CivilDate.StampTellsMinutes` | crates/miasma-cli/src/chat_cmd.rs:211-231 | two timestamps have the same text exactly when they lie in the same minute |
| `CivilDate.StampSays` | crates/miasma-cli/src/chat_cmd.rs:210-231 | the text of every timestamp has the year in all but its last twelve places, then month, day, hour and minute in two digits each, with `-`, `-`, a space and `:` between, and these are the date of its day and its time of day |
| `Base58.PushDigit` | web/js/storage.js:353-372 | one character multiplies the array's number by 58 and adds: the carry stays at most 57, at most one byte is appended, and the array stays minimal |
| `Base58.CarryPass` | web/js/storage.js:353-372 | the inner loop over the bytes, in place |
| `Base58.DecodeArray` | web/js/storage.js:353-372 | one zero byte for each leading `1`, then the minimal bytes of the number; every character outside the alphabet is refused |
| `Base58.IndexIsThePlace` | web/js/storage.js:353-358 | the digit of a character is the one place where it stands in the alphabet |
| `Base58Laws.DecodeEncode58` | crates/miasma-wasm/src/lib.rs:72-74 | for every byte string, decoding undoes encoding |
| `Base58Laws.EncodeDecode58` | web/js/storage.js:353-372 | for every base58 text, encoding undoes decoding |
| `Base58Laws.DecodeBigInt` | web/js/app.js:1226-1241 | the big-integer decoder: the number in hexadecimal, padded to 64 digits, its first 32 pairs |
| `Base58Laws.BigDecodeFills` | web/js/app.js:1226-1241 | for at most 32 bytes it gives the bytes with zeros in front |
| `Base58Laws.BigDecodeDrops` | web/js/app.js:1226-1241 | of more than 32 bytes, leading zero bytes that do not fit are dropped |
| `Base58Laws.BigDecodeLong` | web/js/app.js:1226-1241 | with a byte that does not fit, the number is read from its first hexadecimal digit on: from the first byte if that has two digits, else shifted by half a byte or more |
| `Base58Laws.DecodersAgree` | web/js/app.js:1226-1241 | the two decoders agree on a text exactly when it decodes to 32 bytes |
| `Mid.OneKeyPerMid` | web/js/storage.js:342-347 | for every 32-byte digest, its shares are saved and looked up under the hexadecimal text of its first eight bytes |
| `Mid.KeysAgreeExactlyWhen` | web/js/app.js:425-432 | for every text of at least eight bytes both keys exist, and agree exactly when there are 32 bytes; or fewer and the first eight are zero; or more, and either the bytes that do not fit and the next eight are zero, or one that does not fit is not zero and the first byte is at least 16 |
| `Mid.ShortMidHasTwoKeys` | web/js/app.js:425-432 | every shorter digest with a non-zero byte among the first eight has two keys |
| `Mid.HexSpells` | web/js/storage.js:346 | byte `i` of a key is spelled by the digits of 0123456789abcdef for its two halves, at places `2i` and `2i + 1` |
| `Mid.WhoHasAKey` | web/js/storage.js:342-347 | which texts have no key to save under, and for which of three reasons, and which have none to look up |
| `Base64.AtobOfBtoa` | web/js/bridge.js:977-992 | `atob` undoes `btoa` on every byte string |
| `Base64Laws.GroupSpellsTheSame` | web/js/storage.js:227-245 | four characters spell the number that three bytes spell |
| `Base64Laws.LastGroup` | web/js/storage.js:227-245 | and at the end, where bytes are missing, their bits are zero |
| `Base64Laws.SpaceDoesNotCount` | web/js/storage.js:227-232 | white space may stand anywhere in a text to be decoded |
| `Base64Laws.PaddingMayBeMissing` | web/js/storage.js:227-232 | a text without its padding is decoded to the same bytes |
| `Base64Laws.AtobRefusesLength` | web/js/storage.js:227-232 | a text whose length, without white space, is one more than a multiple of four is refused |
| `Base64Laws.AtobRefusesOthers` | web/js/storage.js:227-232 | any other character than those of the alphabet before the last two places is refused |
| `Base64Url.B64UrlEncode` | web/js/websig.js:31-36 | the loop, `btoa` and the replacements give the unpadded text of the URL alphabet, of length ceil(4n/3) |
| `Base64Url.B64UrlDecode` | web/js/websig.js:39-50 | strict decoding: only a text that encodes back to itself |
| `Base64Url.Base64UrlBijection` | web/js/websig.js:27-50 | a text decodes to bytes exactly when the bytes encode to it |
| `Base64Url.AcceptsExactlyCanonical` | web/js/websig.js:39-50 | exactly the canonical texts of sections 3.5 and 5 of RFC 4648 are accepted |
| `WebSig.RequestInjective` | web/js/websig.js:89-107 | two requests share a signing string only if they agree in every field, times compared as text |
| `WebSig.RegistrationInjective` | web/js/websig.js:113-121 | the same for registrations |
| `WebSig.RequestIsNoRegistration` | web/js/websig.js:89-121 | a signing string of a request is never one of a registration |
| `WebSig.RequestLineByLine` | web/js/websig.js:89-107 | split at the line feeds, the string of a request is the scheme, method, target, origin, session, time, nonce and body hash, in this order |
| `WebSig.RegistrationLineByLine` | web/js/websig.js:113-121 | and that of a registration the scheme, origin, boot value, key and time |
| `WebSig.RequestFields` | web/js/websig.js:59-107 | exactly which requests are refused, field by field |
| `WebSig.RegistrationFields` | web/js/websig.js:59-121 | exactly which registrations are refused, field by field |
| `WebSigHeader.ParsePrinted` | web/js/websig.js:124-140 | every header printed from valid fields is parsed back |
| `WebSigHeader.PrintParsed` | web/js/websig.js:124-140 | every header parsed is printed back |
| `WebSigHeader.HeaderBijection` | web/js/websig.js:124-140 | a text parses to fields exactly when the fields print to it |
| `WebSigHeader.HeaderIsShort` | web/js/websig.js:124-140 | a valid header has 164 characters and its time, at most 180, so the limit of 256 never refuses one |
| `WebSigHeader.HeaderPieceByPiece` | web/js/websig.js:124-129 | split at the commas, a header is the scheme and version, then session, time, nonce and signature, each with its name |
| `WebSessionLaws.EstablishLaws` | web/js/websession.js:293-316 | ready only with a session for that bridge and origin; at most two registrations, the second only after a stale-timestamp refusal with a server time; a settled boot value is dropped. The times in them are `WebSessionExact.RegisterTimes`, the answers `WebSessionExact.EstablishAnswers` |
| `WebSessionLaws.SignedFetchLaws` | web/js/websession.js:319-354 | one request, or two only after such a refusal; each signed for the session, with a header from which the signed string can be rebuilt. The times in them are `WebSessionExact.FetchTimes` |
| `WebSessionLaws.StepKeepsValid` | web/js/websession.js:283-383 | every call keeps the invariant of the client |
| `WebSessionLaws.ReadyIsBound` | web/js/websession.js:293-316 | in every run of calls, ready means a session bound to that bridge and this page |
| `WebSessionLaws.LockedForever` | web/js/websession.js:379-383 | after a locking clear there is never a session again, and nothing is sent |
| `WebSessionLaws.BootIsUsedOnce` | web/js/websession.js:283-316 | a boot value that made a session or was refused for good is not sent again unless set again |
| `WebSessionExact.FetchTimes` | web/js/websession.js:319-354 | the first request is signed for the page's clock plus the session's offset; if it is refused for its time, the second for the daemon's time plus what has passed since that answer, and the session keeps that offset; there is no third |
| `WebSessionExact.RegisterTimes` | web/js/websession.js:180-238 | the first proof is for the page's clock, the second for the daemon's time plus what has passed since its refusal; the session made has the offset of the daemon's time in the reply, if any, and else the one used |
| `WebSessionExact.FetchSendsExactlyWhen` | web/js/websession.js:319-343 | a request is sent exactly with a session, crypto, its host and fields that can be signed |
| `WebSessionExact.RegisterSendsExactlyWhen` | web/js/websession.js:180-200 | a registration is sent exactly when the page may make one and its fields have their form |
| `WebSessionExact.EstablishAnswers` | web/js/websession.js:293-316 | which answer is given exactly when, and what each leaves of the boot value and the session |
| `WebSessionExact.MadeIsTaken` | web/js/websession.js:221-235 | a session that was made is the client's, the boot value is used up, and a record is kept if that works |
| `WebSessionExact.KeptIsRestored` | web/js/websession.js:158-172 | what is kept of a session is restored by a later load of the same page for the same bridge, without a request |
| `WebSessionExact.UnusableIsLeft` | web/js/websession.js:240-257 | a record that is broken, or whose key could be read out, is erased if that works; any other that is not for here stays |
| `WebSessionExact.BootValues` | web/js/websession.js:283-284 | exactly 43 characters of base64url are kept as boot value; anything else clears it |
| `WebSessionExact.EndsAre` | web/js/websession.js:356-383 | what invalidating, dropping and clearing each leave of session, reason, boot value, lock and record |
| `WebSessionExact.EndIs` | web/js/websession.js:364-369 | ending sends what a signed fetch sends and leaves what clearing leaves |
| `SessionClient.Client.constructor` | web/js/websession.js:139-150 | a client starts without a session, and with what the store holds |
| `SessionClient.Client.SetBoot` | web/js/websession.js:284 | only a well-formed boot value becomes pending |
| `SessionClient.Client.RegisterWith` | web/js/websession.js:180-238 | the loop with its one retry computes the registration whose times and result `WebSessionExact.RegisterTimes` states |
| `SessionClient.Client.Conclude` | web/js/websession.js:296-312 | a session that was made is taken and stored and the boot value dropped; a definitive refusal drops it too |
| `SessionClient.Client.EstablishAt` | web/js/websession.js:293-316 | the object makes the step of the state machine and keeps its invariant |
| `SessionClient.Client.RestoreFrom` | web/js/websession.js:240-266 | a stored record is taken only if it is intact and for this page and bridge; a broken one is erased |
| `SessionClient.Client.FetchSigned` | web/js/websession.js:319-354 | the loop with its one retry makes the step of the state machine, whose times `WebSessionExact.FetchTimes` states |
| `SessionClient.Client.Invalidate` | web/js/websession.js:357-361 | the session and its record are dropped |
| `SessionClient.Client.DropAll` | web/js/websession.js:372-376 | the memory is dropped, the record is kept |
| `SessionClient.Client.ClearAll` | web/js/websession.js:379-383 | memory and record are dropped, and the client is locked if asked |
| `SessionClient.Client.End` | web/js/websession.js:364-369 | the daemon is told, then everything is dropped |
| `BridgeAuth.AdvertisedMeansNoBearer` | web/js/bridge.js:912-932 | in every run, if the last ping advertised how the daemon authenticates, no Bearer token leaves the page |
| `BridgeAuth.GoneSessionIsForgotten` | web/js/bridge.js:935-953 | a session the daemon calls over is forgotten, shown as expired, and the next request is not sent |
| `BridgeAuth.SigModeSigns` | web/js/bridge.js:935-953 | in the signing mode whatever is sent is signed for the session and for its host |
| `BridgeAuth.ModeFollowsPing` | web/js/websession.js:43-48 | in every run the mode suits the last ping: the old one exactly if it advertised nothing, the signed one exactly if it named `sig-v1` |
| `BridgeAuth.AdvertisedMeansSigned` | web/js/bridge.js:912-952 | in every run, if the last ping named `sig-v1`, whatever is sent is signed for the session and its host; if it named others only, nothing is sent |
| `BridgeAuth.SignedRequestShows` | web/js/bridge.js:935-952 | what the page shows after a signed request, and that the session is given up exactly for a 401 that says it is over |
| `BridgeAuth.RefusalShown` | web/js/websession.js:50-63 | which refusal codes are shown as expired, as missing and as rejected |
| `BridgeAuth.NoSessionShows` | web/js/bridge.js:935-940 | without a session nothing is sent, and the page shows why there is none |
| `BridgeAuth.LegacyRequestShows` | web/js/bridge.js:922-932 | a daemon that advertises nothing gets the token as it is, and what is then shown |
| `BridgeAuth.UnsupportedShows` | web/js/bridge.js:917-920 | with a daemon that names only other schemes nothing is sent, and that is shown |
| `BridgeAuth.InitShows` | web/js/bridge.js:59-73 | `init` establishes a session exactly for the signed scheme, and shows why there is none |
| `BridgeAuth.PingIsPlain` | web/js/bridge.js:912-914 | a ping carries no credential and changes nothing |
| `BridgePage.Bridge.constructor` | web/js/bridge.js:851-863 | a page starts in the mode of a daemon that advertises nothing, with its state unknown |
| `BridgePage.Bridge.Request` | web/js/bridge.js:912-953 | a request sends what the model says and updates mode, state and session |
| `BridgePage.Bridge.Start` | web/js/bridge.js:56-73 | `init` chooses the mode from the ping and establishes the session |
| `ServiceWorker.ToCacheKeeps` | web/sw.js:61 | exactly the listed files other than sw.js go into the cache |
| `ServiceWorkerAlone.ToCacheJoin` | web/sw.js:61 | and in the order in which the manifest lists them |
| `ServiceWorkerFiles.DropReturnsKeeps` | web/sw.js:36-40 | of a text file exactly the bytes other than carriage returns are hashed, each once and in their order |
| `ServiceWorkerFiles.TextNames` | web/sw.js:25-39 | text files are those whose names end in .js, .html, .css or .json |
| `ServiceWorkerFiles.MatchesIs` | web/sw.js:36-47 | a text file has the hash of what is left without carriage returns, any other that of its bytes |
| `ServiceWorkerFiles.LineEndingsDoNotCount` | web/sw.js:35-48 | a build served with other line endings in its text files can be installed exactly when it can with these |
| `ServiceWorkerFiles.InstallableIs` | web/sw.js:36-62 | an install goes on exactly with a manifest of its version and, for every file to be cached, a body of the listed hash |
| `ServiceWorkerRuns.InstallCompletes` | web/sw.js:50-73 | an install nobody interferes with, whose files arrive with their hashes (`ServiceWorkerFiles.InstallableIs` says which do), ends with its version complete: a new cache with the files, the manifest and the marker under its name, and nothing else changed |
| `ServiceWorkerAlone.WrongManifestChangesNothing` | web/sw.js:50-57 | without a manifest of its own version an install changes nothing at all |
| `ServiceWorkerAlone.WrongFilesRollBack` | web/sw.js:58-72 | an install without all its files, each with its hash, takes its own name away and nothing else |
| `ServiceWorkerAlone.FailedPutRollsBack` | web/sw.js:63-72 | an install one of whose writes fails, whichever, takes its own name away and nothing else |
| `ServiceWorkerAlone.IncompleteKeepsAll` | web/sw.js:75-77 | the activation of a version that is not complete takes nothing away |
| `ServiceWorkerAlone.CompleteStandsAlone` | web/sw.js:75-80 | the activation of a complete version, in whatever order it deletes, leaves that one name, leading where it led, and every cache as it was |
| `ServiceWorkerAlone.StoppedStaysStopped` | web/sw.js:91-97 | a process that was stopped takes no further step, and nothing else notices |
| `ServiceWorkerAlone.AnswersAre` | web/sw.js:82-89 | nothing is answered without the marker; else what is stored, and for a page that is not stored what is stored for index.html |
| `ServiceWorkerShape.EveryRunIsShaped` | web/sw.js:50-80 | in every run, whatever the manifests list: a name leads to a cache of that name, a process holds a cache of its version, and an install puts the files of a manifest of its version, each fetched with its hash |
| `ServiceWorkerShape.StepCache` | web/sw.js:50-80 | a step puts the next entry of a putting install into its cache, makes an empty cache, or leaves a cache alone |
| `ServiceWorkerShape.RunGrows` | web/sw.js:50-80 | in the course of a run a cache is never lost or renamed, and no entry of it goes away, whatever happens to its name |
| `ServiceWorkerHonest.RunsAreTidy` | web/sw.js:50-80 | if every installable manifest has good names and no two installs of one version overlap, each install knows exactly what its cache holds, and every marked cache holds a manifest of its version and every file that manifest lists, with its hash |
| `ServiceWorkerHonest.ListedMarkerIsDishonest` | web/sw.js:62-68 | a manifest with a name that leads to the marker leads to a marked cache without a manifest |
| `ServiceWorkerHonest.ListedManifestIsDishonest` | web/sw.js:62-68 | a manifest with a name that leads to itself and another hash ends complete, and answers for that file what does not match |
| `ServiceWorkerHonest.SharedPathIsDishonest` | web/sw.js:61-68 | if the last of the names that lead to one URL admits content that another refuses, an install ends complete and answers that content |
| `ServiceWorkerHonest.ListedManifestInOverlap` | web/sw.js:58-68 | a manifest listing itself with any hash is overwritten, in a marked cache, by a second install that waited to open it |
| `ServiceWorkerHonest.ConflictInOverlap` | web/sw.js:58-68 | a late install with another manifest of the version overwrites a file in a marked cache with content that the stored manifest refuses |
| `ServiceWorkerHonest.HonestExactlyWhen` | web/sw.js:50-80 | all runs without overlapping installs of one version are honest exactly when no installable manifest has a name that leads to the marker, or to itself but with its own hash, or to the URL of a later name that admits what it refuses |
| `ServiceWorkerHonest.HonestInAnyRunExactlyWhen` | web/sw.js:50-80 | all runs whatever are honest exactly when no installable manifest has a name that leads to the marker or to itself, and those of one version admit the same content wherever they lead to one URL |
| `ServiceWorkerHonest.HonestOffline` | web/sw.js:82-89 | in runs of the first kind a worker answers from one build or not at all, relative to the manifest stored |
| `ServiceWorkerLaws.StepKeepsInv` | web/sw.js:50-80 | each step of an install or activation, between two awaits, keeps the invariant of all overlapping runs, under the condition of `HonestInAnyRunExactlyWhen` |
| `ServiceWorkerLaws.EveryRunKeepsInv` | web/sw.js:50-80 | under that condition, for every interleaving of any number of installs and activations, stopping anywhere: a cache with the marker holds a manifest of its version and every file that manifest lists, and whatever it holds has the hash that every installable manifest of the version gives it |
| `ServiceWorkerLaws.OfflineServesOneBuild` | web/sw.js:82-89 | in every such state a worker answers from the complete cache of its own version or not at all; each listed file is answered with content of its hash, and every navigation is answered when index.html is listed |
| `ServiceWorkerLaws.ReadAcrossAwaits` | web/sw.js:82-89 | an answer put together across awaits is as good: a cache once seen to be marked stays marked and holds every file of the manifest it held then, with its hash, at every later time |
| `ServiceWorkerFallback.LastLostExactlyWhen` | web/sw.js:50-80 | a step loses the last complete cache exactly when it deletes the only usable name |
| `ServiceWorkerFallback.FallbackLostExactlyWhen` | web/sw.js:50-80 | in every run, whatever overlaps and whatever the manifests list, an event does so exactly when it is such a step |
| `ServiceWorkerFallback.OrderlyIsCalm` | web/sw.js:50-80 | under the three conditions, and if no installable manifest lists the marker, no install is under way for a complete version, and an activation about to delete others has its own cache complete and reachable |
| `ServiceWorkerFallback.FallbackStays` | web/sw.js:50-80 | under the same conditions some complete cache remains from the first one on, however installs and an activation overlap and wherever they stop |
| `ServiceWorkerFallback.FallbackStaysExactlyWhen` | web/sw.js:50-80 | under the three conditions no run loses its last complete cache exactly when no installable manifest lists the marker |
| `ServiceWorkerFallback.ListedMarkerLosesTheFallback` | web/sw.js:62-71 | from a fresh start and under the three conditions, an install of a manifest listing the marker whose put of the manifest fails leaves none after its cache was complete |
| `ServiceWorkerFallback.ReinstallLosesTheFallback` | web/sw.js:58-60 | from a fresh start, without any overlap, installing the only complete version again leaves none |
| `ServiceWorkerFallback.TwoInstallsLoseTheFallback` | web/sw.js:58-68 | from a fresh start, two overlapping installs of a version that is not complete leave none after one was complete |
| `ServiceWorkerFallback.OverlapLosesTheFallback` | web/sw.js:75-80 | from a fresh start, two versions installed one after the other and activated at once delete each other's cache and leave none |
| `Frames.ReadsExactlyLayouts` | crates/miasma-wasm/src/lib.rs:589-616 | the reader returns parts exactly when the input is their layout and each has an allowed length: no byte is skipped, none is read twice, none is left over |
| `Frames.PartErrors` | crates/miasma-wasm/src/lib.rs:591-606 | why a part is not taken, each reason exactly when, in the order of the tests |
| `Frames.ErrorsComeThrough` | crates/miasma-wasm/src/lib.rs:588-613 | after any parts that are taken, what is wrong with the next one is what is wrong with the input, and so are bytes left over |
| `Frames.LeValueOfLe` | web/js/storage.js:293-297 | a number written in little-endian bytes is read back, but for the bits that do not fit |
| `ShareBundle.PackShareBundle` | web/js/storage.js:280-302 | the buffer written through an offset is magic, count and every part after its length, or the error of the source |
| `ShareBundle.PackParts` | web/js/storage.js:288-301 | the buffer has the right size and is filled to its end |
| `ShareBundle.WriteFrame` | web/js/storage.js:295-300 | a part and its length go right after what was written |
| `ShareBundle.UnpackShareBundle` | crates/miasma-wasm/src/lib.rs:575-618 | the reader of the module, with its errors in its order |
| `ShareBundle.PackUnpack` | web/js/storage.js:280-302 | what the page packs is unpacked to the same parts exactly when each has at most a mebibyte and is a share |
| `ShareBundle.UnpackIsPacked` | crates/miasma-wasm/src/lib.rs:575-618 | whatever is unpacked is the bundle the page writes for those parts |
| `ShareBundle.BundleErrors` | web/js/storage.js:280-302 | which shares are not packed, and which bytes are refused for the letters MSB1 or for their count, each exactly when |
| `DissolveBundle.EncodeDissolveBundle` | crates/miasma-wasm/src/lib.rs:531-573 | the writer of the module, with its errors |
| `DissolveBundle.ParseDissolveBundle` | web/js/storage.js:304-340 | the parser of the page, moving an offset that never leaves the buffer, with its errors in its order |
| `DissolveBundle.ParseShares` | web/js/storage.js:322-338 | the loop builds one share for each part, in its slot |
| `DissolveLaws.BundleIsParsed` | web/js/storage.js:304-340 | a bundle of a usable MID text is parsed back exactly when it has 1 to 512 non-empty parts and the total says how many |
| `DissolveLaws.ParsedIsBundle` | web/js/storage.js:304-340 | only bundles are parsed: the input is the layout of the bytes of its MID text and of the rest of the result |
| `DissolveLaws.WriteErrors` | crates/miasma-wasm/src/lib.rs:531-573 | which of the three limits refuses a bundle, each exactly when; any other begins with MDB1 |
| `DissolveLaws.HeaderErrors` | web/js/storage.js:304-312 | which bytes are refused for their header and which for being too short for their MID text |
| `DissolveLaws.ReadErrors` | web/js/storage.js:313-338 | past the header: which errors are reported, each exactly when, in the order of the tests |
| `DissolveLaws.ParsesOnlyPrints` | web/js/storage.js:304-340 | the input is the print of the result exactly when there is no byte order mark at offset 6, and else the print with the mark |
| `DissolveLaws.MarkedPrintIsParsedAlike` | web/js/storage.js:313 | every print and the same print with the mark differ and parse to the same result |
| `DissolveLaws.MidIsSpelled` | web/js/storage.js:313 | the MID text of a result is spelled in its ASCII bytes, or in those after a byte order mark |
| `DissolveLaws.DissolveComesThrough` | crates/miasma-wasm/src/lib.rs:531-573 | for every 32-byte digest the page reads what the module wrote, exactly under those conditions |
| `ShareRows.BytesToBase64` | web/js/storage.js:234-245 | the chunked encoder equals the one-shot encoder |
| `ShareRows.PortableKeepsBytes` | web/js/storage.js:260-273 | an export has the bytes of the share exactly unless those are there and empty, and exporting an export changes nothing |
| `ShareRows.PortableFields` | web/js/storage.js:260-273 | field by field, what an export holds |
| `ShareRows.RowFields` | web/js/storage.js:45-69 | field by field, what a reader is shown of a row, and what an upgraded row holds |
| `ShareRows.UpgradeRows` | web/js/storage.js:45-69 | the cursor upgrades every row in place and no other |
| `ShareRows.UpgradeTwice` | web/js/storage.js:45-69 | the upgrade is idempotent, keeps the key of a row, and changes a row exactly when it holds decodable base64 text |
| `ShareRows.UpgradeKeepsBytes` | web/js/storage.js:202-258 | a reader gets the same bytes from the upgraded row exactly unless the old share carried other bytes besides its text |
| `ShareRows.UpgradeKeepsExport` | web/js/storage.js:45-69 | the export of an upgraded row is that of the old share exactly when the row names its prefix and slot, and gives no timestamp to a share without one |
| `ShareStore.SavedIsRead` | web/js/storage.js:92-107 | reading a saved row gives the bytes saved, and the upgrade leaves it alone |
| `ShareStore.SavedIsExported` | web/js/storage.js:92-107 | the export of a saved share is that of the share exactly when the share names its prefix and slot, or the defaults are the same |
| `ShareStore.PutAllAt` | web/js/storage.js:92-107 | under each key stands the last row of that key |
| `ShareStore.SavedFields` | web/js/storage.js:92-107 | field by field, the row a share is saved in, and its key |
| `ShareStore.KeptIs` | web/js/storage.js:184-198 | the rows kept are the accepted ones, as readers see them, all of them and in the order of the cursor |
| `ShareStore.CutIs` | web/js/storage.js:184-198 | no more than the limit, from the front, and all if there are no more |
| `ShareStore.ShareDb.SaveShares` | web/js/storage.js:81-118 | all rows and the metadata, or nothing and the error |
| `ShareStore.CursorCollect` | web/js/storage.js:179-200 | stopping early still gives the first accepted rows up to the limit, and no others |
| `ShareJourney.CursorShows` | web/js/storage.js:122-127 | shares in slots 0, 1, 2, … put into a table without rows of their prefix are shown in that order and completely |
| `ShareJourney.SharesComeBack` | web/js/storage.js:81-118 | written by the module, parsed, saved, collected, packed and unpacked, the shares are those that were written, exactly when each has at most a mebibyte and is accepted |
| `PasswordPolicy.EditionsAgree` | crates/miasma-core/src/transfer/password_policy.rs:137-178 | the web and the native edition report the same violations in the same order, of every password |
| `PasswordPolicy.ReportsExactly` | web/js/password_policy.js:43-52 | each code is reported exactly when its rule is broken, once and in a fixed order |
| `PasswordPolicy.DirectedReportsExactly` | web/js/password_policy.js:55-62 | for a private share the same, but for the first rule, which asks for twelve characters |
| `PasswordPolicy.DirectedIsStricter` | web/js/password_policy.js:55-62 | a password passes for a private share exactly when it passes and has twelve characters |
| `PasswordPolicy.NoModuloBias` | web/js/password_policy.js:81-88 | each value below n is given by exactly floor(2^32/n) accepted draws |
| `PasswordPolicy.EveryPasswordAlike` | web/js/password_policy.js:95-105 | each text of a length is spelled by the same number of sequences of accepted draws |
| `PasswordPolicy.SpellingIs` | web/js/password_policy.js:77-103 | those sequences are the accepted draws whose characters are the text |
| `PasswordFairness.EveryResultAlike` | web/js/password_policy.js:95-105 | for every number of accepted draws, any two compliant texts of one length are returned for equally many sequences of so many draws, given-up attempts included |
| `PasswordFairness.ReturningIs` | web/js/password_policy.js:95-105 | those sequences are the accepted draws for which the generator returns the text |
| `PasswordGenerator.RandomBelow` | web/js/password_policy.js:81-88 | the first accepted draw, reduced |
| `PasswordGenerator.GeneratePassword` | web/js/password_policy.js:95-105 | the first compliant group of accepted draws, of the clamped length, passing both checks |
| `PasswordGenerator.GeneratedIsFirst` | web/js/password_policy.js:95-105 | the password is the first attempt that complies, all before it having been given up whole |
| `PasswordGenerator.NoneComplies` | web/js/password_policy.js:95-105 | without a password no complete attempt complies |
| `PasswordGenerator.AcceptedJoin` | web/js/password_policy.js:81-88 | draws are looked at one after the other |
| `PasswordGenerator.ClampedIs` | web/js/password_policy.js:99 | a length from 12 to 64 is taken, a smaller one as 12, a larger one as 64; none or zero is 16 |
| `Strip.BuildStrip` | web/js/format.js:178-196 | at most 400 cells of the least bucket size that tile the segments; done cells, then the one being worked on, then pending ones; a resume cell in range that holds the resume position |
| `Strip.FillCells` | web/js/format.js:185-191 | the tests of the loop give the closed form |
| `Strip.OneInflight` | web/js/format.js:178-196 | the cell of the next segment is in flight exactly while running and unfinished, and no other |
| `Strip.DoneExactlyWhen` | web/js/format.js:172-191 | a cell is done exactly when every segment in it is |
| `Strip.InputsAre` | web/js/format.js:179-181 | what is no number, or negative, counts as zero; fractions are dropped; no more is done than there is |

## Left out

- Sockets, timeouts, the file system, fetch, IndexedDB and CacheStorage internals: their answers are inputs.
- Cryptography (signatures, hashes, secret sharing, erasure coding): used only through parameters.
- Overlapping calls on one session client: each call of the model finishes before the next one starts.
- The bincode form of a share: the bundles carry byte strings, and which of them are shares is a parameter.
- ServiceWorkerHonest.HonestInAnyRunExactlyWhen: where a name leads is given with the manifest; how a URL is resolved, and that a cache ignores a fragment, is not modelled. A response fetched for a name that leads to the manifest counts as a file, not as the stored manifest, also when its bytes are the same.
- ServiceWorkerLaws.OfflineServesOneBuild: the read is one step. The source opens the cache, looks for the marker and looks for the path in three; `ServiceWorkerLaws.ReadAcrossAwaits` covers the time between, and that opening makes an empty cache is what the first step of an activation does, so runs with such steps are among those covered.
- ServiceWorkerFallback.FallbackStaysExactlyWhen: the condition on manifests is exact; the three conditions on the order of events are sufficient and each is shown to be needed, and `ServiceWorkerFallback.FallbackLostExactlyWhen` is the exact condition, step by step.
- PasswordGenerator.GeneratePassword: a source of draws that never yields a password is a finite sequence that runs out; the source would loop.
- ShareRows.UpgradeKeepsBytes: fields of JavaScript values are integers, texts, bytes or absent; other types of a field count as absent.
- DhtLookup.DhtGetPeers: the datagrams of a round are given as the sequence received before its timeout; token and transaction identifiers are not checked by the source and are not modelled.
- Base58.DecodeArray: the empty text gives one zero byte, as in the source; its key is refused for its length.
- The dead download code of the bridge, command-line plumbing, message tables, formatting of sizes and rates, and page rendering: they hold no property of their own.
