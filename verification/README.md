# ShadowsocksR in Dafny

A model of the stateful core of ShadowsocksR, a TCP proxy built as a stack of byte-stream transducers,
and of the tables and ledgers around it. Every layer that changes state call by call is a Dafny class
whose methods are proved against a specification function; the properties the system promises are
lemmas about those functions, for all inputs, all random choices, all segmentations and all runs.

`dafny verify dfyconfig.toml` checks the whole project.

| file | part of the system |
|---|---|
| `Binary.dfy`, `Containers.dfy` | bytes, fixed-width integers, the keystream XOR; options and lists of different things |
| `Streaming.dfy` | theory of receivers that buffer fragments and peel off frames |
| `ChainPadding.dfy`, `ChainDraws.dfy`, `ChainFrames.dfy`, `ChainSession.dfy`, `ChainDown.dfy` | padding, the numbers behind it, frames, handshake and both directions of `auth_chain_a` to `e` |
| `AuthChain.dfy`, `ChainTransfer.dfy` | the `auth_chain` protocol object, and two of them with a wire in between |
| `PaddedFrames.dfy`, `PaddedSession.dfy`, `PaddedHandshakes.dfy`, `PaddedProtocol.dfy` | `auth_aes128_*` and `auth_sha1_v4` |
| `TlsRecords.dfy`, `Encryption.dfy`, `Pipeline.dfy` | the TLS record layer, the encryptor, libsodium streams, and the three layers stacked |
| `ConnectionWindow.dfy`, `ClientTable.dfy`, `ChainAdmission.dfy` | the window of connection ids of one client, the table of clients, and the handshake in front of them |
| `OrderedDictionary.dfy`, `LruCache.dfy`, `CacheHistory.dfy` | the linked-list dictionary, the cache above it, and the cache in terms of its history |
| `RelayFlow.dfy`, `TcpRelay.dfy`, `SpeedLimit.dfy` | flow control of a relayed connection, and the rate limiter |
| `DnsCodec.dfy`, `DnsMessages.dfy`, `DnsResolver.dfy` | names, messages, and the book of pending look-ups |
| `Traffic.dfy`, `ServerPool.dfy`, `TransferPush.dfy` | traffic counters, aggregation over relays, incremental push |

## How it is modelled

HMAC, block ciphers and keystreams are function-valued fields: deterministic, of fixed length, with
decryption inverse to encryption where the protocol needs it. Random bytes, padding draws, the clock, what
the kernel does with a `send`, and what the database acknowledges are parameters, universally quantified in
every theorem. An exception is a failure result. Integers are unbounded except where the source packs or
masks them.

A receiver is a function from a state and a buffer to *more bytes needed*, *one frame* or *broken*. It is
`Steady` if a frame, once recognised, does not depend on later bytes; `Decisive` if a fault does not either.
`Drain` is the loop of one call, `Feed` a sequence of calls. `Streaming.FeedExact`, `Streaming.Delivery` and
`Streaming.PartialDelivery` turn per-frame facts into theorems about every segmentation and every moment.

## What the proofs brought out

- With the plain obfuscation, `recv_iv` is taken from the first read alone, so it is the sender's IV exactly
  when that read holds the whole IV (`Pipeline.PlainIvExact`). Behind the TLS record layer it is
  always right (`Pipeline.IvRecorded`).
- The eviction in the client table tests the oldest client, but the test itself moves that client to the end,
  so the next one is deleted unless there is only one (`ClientTable.EvictionTargetExact`).
- A read handled while data is pending, because it was reported before the mask changed or together with a
  hang-up, lets new bytes overtake the pending ones. The order is kept exactly when the two commute
  (`RelayFlow.ReadKeepsOrderExactly`), hence for every read exactly when nothing is pending, which is when the
  mask asks for reads (`RelayFlow.ReadsAreSafeExactly`).
- Upstream bytes that have to wait after the connection is established are counted again when they are
  flushed: the counter is right exactly when there is no such second flush (`RelayFlow.CounterIsExactly`).
- An empty frame of four bytes stays in the receive buffer until more bytes arrive (`Streaming.Settled`).
- Only the first waiter for a host can be cancelled (`DnsLookups.CancelExactly`).
- A name survives `build_address` and `parse_name` exactly when all its labels have 1 to 63 bytes; an empty
  name does not (`DnsCodec.RoundTripExactly`).
- When a port is restarted, traffic that had never been billed before is lost (`TransferPush.RestartExactly`).
- A `client_queue` that is not referenced is inactive, so the next insertion enables it afresh and forgets the
  ids accepted before (`ConnectionWindow.ReplayAfterRelease`). While the window stays active, a replayed
  handshake is rejected whatever happens in between (`ChainAdmission.ReplayedHelloIsRejected`).
- With a unit of one byte the server splits the segment size it announces, and the client fails on its first
  frame: the text arrives exactly when the unit has at least two bytes (`ChainDown.UnitsExactly`).

## Model

| member | source | states |
|---|---|---|
| `Streaming.FeedExact` | shadowsocks/obfsplugin/auth_chain.py:471-515 | for a decisive receiver, any sequence of calls has exactly the outcome of one call on the concatenation, failures included |
| `Streaming.FeedSound` | shadowsocks/obfsplugin/auth_chain.py:537-680 | for a steady receiver, any sequence of calls that does not fail equals one call on the concatenation |
| `Streaming.FeedComplete` | shadowsocks/obfsplugin/auth_chain.py:537-680 | a stream that decodes cleanly as a whole never fails under any segmentation, and gives the same output, state and residue |
| `Streaming.Delivery` | shadowsocks/obfsplugin/auth_chain.py:628-680 | frames that are each readable deliver exactly their payload under every segmentation; the residue is empty or one held four-byte frame |
| `Streaming.PartialDelivery` | shadowsocks/obfsplugin/auth_chain.py:628-680 | after any calls on any part of the stream the receiver stands at a frame boundary: its state is the sender's there, its output the payload up to there, its buffer the bytes behind |
| `Streaming.OutputsJoin` | shadowsocks/obfsplugin/auth_chain.py:534-680 | the outputs of the single calls concatenate to the output of the run |
| `Streaming.FeedBreaks` | shadowsocks/obfsplugin/auth_chain.py:628-680 | behind any readable frames, bytes that a receiver fails on alone make it fail however the stream is cut |
| `Binary.XorBitwise` | shadowsocks/obfsplugin/auth_chain.py:364 | bit by bit, the arithmetic XOR is addition modulo two |
| `Binary.HeaderIsMeasured` | shadowsocks/obfsplugin/plain.py:96-106 | an address header of any of the three kinds, whatever follows it, is measured to its end |
| `ChainPadding.XorShift128Plus.Next` | shadowsocks/obfsplugin/auth_chain.py:84-95 | the generator's fields follow the pure xorshift128+ step |
| `ChainPadding.XorShift128Plus.InitFromBin` | shadowsocks/obfsplugin/auth_chain.py:97-101 | reseeding replaces the whole state |
| `ChainPadding.XorShift128Plus.InitFromBinLen` | shadowsocks/obfsplugin/auth_chain.py:103-110 | reseeding from hash and length replaces the whole state, then skips four values |
| `ChainDraws.AdvanceBits` | shadowsocks/obfsplugin/auth_chain.py:84-95 | bit by bit, a step is the xorshift with the shifts 23, 17 and 26 in 64 bits, and the words change places |
| `ChainDraws.OutputIsSum` | shadowsocks/obfsplugin/auth_chain.py:84-95 | the number drawn is the sum of both words after the step, in 64 bits |
| `ChainDraws.SeedsAre` | shadowsocks/obfsplugin/auth_chain.py:97-110 | both words in little-endian order of the zero-filled seed; for a frame the length replaces two bytes and four numbers are skipped |
| `ChainPadding.BisectLeft` | shadowsocks/obfsplugin/auth_chain.py:810-842 | the position splits the sorted list into smaller and not smaller sizes |
| `ChainPadding.SortContents` | shadowsocks/obfsplugin/auth_chain.py:784-799 | sorting a size list keeps its sizes, as a multiset |
| `ChainPadding.PatchEnds` | shadowsocks/obfsplugin/auth_chain.py:902-908 | d's patching ends with at most 64 sizes, all small, the last at least 1300 unless the list is full |
| `ChainPadding.PatchedList0Usable` | shadowsocks/obfsplugin/auth_chain.py:910-924 | d's and e's list is sorted, non-empty, at most 64 long, with a last size of at least 1300 unless full |
| `ChainPadding.InitTables` | shadowsocks/obfsplugin/auth_chain.py:784-924 | for every key and variant the lists are fit for drawing: no empty modulus, no bad index |
| `ChainPadding.DrawIgnoresHistory` | shadowsocks/obfsplugin/auth_chain.py:340-357 | padding length and start position depend on hash and length only, never on earlier draws, so re-evaluating them on a partial frame changes nothing |
| `ChainPadding.PaddingStaysInFrame` | shadowsocks/obfsplugin/auth_chain.py:638-641 | for every variant, key and hash, a frame trips the 4096 limit if and only if its payload alone does |
| `ChainPadding.PadsToListedSize` | shadowsocks/obfsplugin/auth_chain.py:872-963 | outside the fallback c and d pad to a listed size, e to the smallest listed size that fits |
| `ChainDraws.TablesOfB` | shadowsocks/obfsplugin/auth_chain.py:784-799 | b's lists hold exactly the sizes of the numbers drawn one after another from the key, in two lists of the drawn lengths |
| `ChainDraws.TableOfC` | shadowsocks/obfsplugin/auth_chain.py:852-862 | c's list holds exactly the drawn sizes |
| `ChainDraws.TableOfDE` | shadowsocks/obfsplugin/auth_chain.py:902-924 | d's and e's list holds exactly the drawn sizes and those added until one is at least 1300 or there are 64 |
| `ChainDraws.LengthA` | shadowsocks/obfsplugin/auth_chain.py:324-343 | variant a: nothing above 1440 bytes, else the first number modulo 31, 127, 521 or 1021 by size |
| `ChainDraws.LengthB` | shadowsocks/obfsplugin/auth_chain.py:810-842 | variant b: a fitting size of the first list by the first number, else one of the second by the second number, else nothing or the fallback |
| `ChainDraws.LengthsCD` | shadowsocks/obfsplugin/auth_chain.py:872-945 | variants c and d: among the listed sizes that fit, the one the first number points at; c falls back to a's rule, d to nothing |
| `ChainDraws.LengthE` | shadowsocks/obfsplugin/auth_chain.py:954-964 | variant e: the smallest listed size that fits, or nothing |
| `ChainPadding.Padding.constructor` | shadowsocks/obfsplugin/auth_chain.py:801-808 | the object's lists are those of the key, fit for drawing |
| `ChainPadding.Padding.CheckAndPatchDataSize` | shadowsocks/obfsplugin/auth_chain.py:902-908 | the recursion on the field equals the pure patching |
| `ChainPadding.Padding.InitDataSize` | shadowsocks/obfsplugin/auth_chain.py:784-924 | the list-building loops produce the lists of the pure definition |
| `ChainPadding.Padding.DrawLength` | shadowsocks/obfsplugin/auth_chain.py:324-963 | the drawn length and the generator afterwards, for variants a to e |
| `ChainFrames.OpenIsStable` | shadowsocks/obfsplugin/auth_chain.py:628-680 | once a frame is accepted or refused, later bytes do not change that; a frame uses between one and all buffered bytes |
| `ChainFrames.PaddedPosition` | shadowsocks/obfsplugin/auth_chain.py:345-357 | the text stands exactly where the receiver looks for it |
| `ChainFrames.OpenPacked` | shadowsocks/obfsplugin/auth_chain.py:359-369 | opening a packed frame, whatever follows it, returns its data and the sender's next chain value, or waits if only four bytes are there |
| `ChainFrames.OpenedExactly` | shadowsocks/obfsplugin/auth_chain.py:628-668 | a buffer is opened if and only if it starts with a frame that the sender in this state can pack, and has more than four bytes |
| `ChainFrames.RefusedExactly` | shadowsocks/obfsplugin/auth_chain.py:636-665 | a buffer is refused if and only if its size reaches 4096, or it holds a complete frame whose tag is not that of its bytes; it waits if and only if it is incomplete |
| `ChainFrames.FrameFormat` | shadowsocks/obfsplugin/auth_chain.py:359-369 | size, text and tag stand masked, encrypted and keyed where the format says; the tag's HMAC is the next chain value, the id grows by one in 32 bits |
| `ChainSession.HelloAgrees` | shadowsocks/obfsplugin/auth_chain.py:383-426 | the server accepts the 36-byte handshake and derives the client's user key, seed, hash and overhead |
| `ChainSession.TermsMatch` | shadowsocks/obfsplugin/auth_chain.py:552-571 | sharing the server's key when it lists no users, or being listed with one's own key, makes client and server match |
| `ChainSession.HelloIsSteady` | shadowsocks/obfsplugin/auth_chain.py:540-620 | the handshake is judged from its first 36 bytes alone, and a rejected prefix is never accepted later |
| `ChainSession.HelloExactly` | shadowsocks/obfsplugin/auth_chain.py:540-617 | which first bytes are rejected, undecided or accepted, with what key, seed, hash and overhead, for every buffer |
| `ChainSession.FaultyFrameBreaks` | shadowsocks/obfsplugin/auth_chain.py:636-665 | a faulty next frame puts nothing out: the decoy if it is the first frame, an exception otherwise |
| `ChainSession.UpIsSteady` | shadowsocks/obfsplugin/auth_chain.py:534-680 | the server's receiver is steady in every state |
| `ChainSession.ClientPacketsAreSent` | shadowsocks/obfsplugin/auth_chain.py:453-466 | handshake and frames of any writes are readable in order and carry exactly the text |
| `ChainSession.ClientToServer` | shadowsocks/obfsplugin/auth_chain.py:534-680 | for any writes and any segmentation the server outputs exactly the client's text, and ends in the client's state, at most one empty frame behind |
| `ChainSession.TamperingIsNoticed` | shadowsocks/obfsplugin/auth_chain.py:628-668 | a faulty frame behind any number of the client's frames makes the server fail, however the stream is cut |
| `ChainSession.EndsAgree` | shadowsocks/obfsplugin/auth_chain.py:628-680 | at every moment, whatever has arrived and in whatever pieces, the server has read the handshake and n whole frames, and its chain hash, frame id and cipher offset are those the client had after these n frames |
| `ChainDown.DownIsDecisive` | shadowsocks/obfsplugin/auth_chain.py:468-515 | the client's receiver is decisive |
| `ChainDown.DownUnits` | shadowsocks/obfsplugin/auth_chain.py:517-532 | a write is cut into units that join to it, preceded by the segment size in the first write only |
| `ChainDown.ServerToClient` | shadowsocks/obfsplugin/auth_chain.py:468-532 | for fewer than 2^32-1 frames the client outputs exactly the server's text, takes the segment size off once, and ends with the announced value |
| `ChainDown.FaultyFrameBreaks` | shadowsocks/obfsplugin/auth_chain.py:481-502 | a faulty next frame makes the client's call raise an exception, whatever it has gathered |
| `ChainDown.TamperingIsNoticed` | shadowsocks/obfsplugin/auth_chain.py:481-502 | a faulty frame behind any number of the server's frames makes the client fail, however the stream is cut |
| `ChainDown.EndsAgree` | shadowsocks/obfsplugin/auth_chain.py:468-515 | at every moment the client's chain hash, frame id and cipher offset are those the server had after the frames read so far |
| `ChainDown.OneByteUnitsFail` | shadowsocks/obfsplugin/auth_chain.py:517-532 | with units of one byte the client raises an exception, whatever is written and however it arrives |
| `ChainDown.UnitsExactly` | shadowsocks/obfsplugin/auth_chain.py:517-532 | the client outputs the text if and only if the unit has at least two bytes |
| `ChainDown.DownCallDrains` | shadowsocks/obfsplugin/auth_chain.py:507-513 | cutting the segment size off the output of the call is cutting it off the frame, as long as no later frame of the buffer is numbered one |
| `ChainDown.SentClimbs` | shadowsocks/obfsplugin/auth_chain.py:468-515 | which holds for every part of a stream whose ids have not wrapped around |
| `AuthChain.AuthChain.constructor` | shadowsocks/obfsplugin/auth_chain.py:273-297 | the fields of a fresh object |
| `AuthChain.AuthChain.RndData` | shadowsocks/obfsplugin/auth_chain.py:345-357 | the padded text |
| `AuthChain.AuthChain.PackClientData` | shadowsocks/obfsplugin/auth_chain.py:359-369 | one frame upward, and the chain, id and offset after it |
| `AuthChain.AuthChain.PackServerData` | shadowsocks/obfsplugin/auth_chain.py:371-381 | one frame downward, and the chain, id and offset after it |
| `AuthChain.AuthChain.PackAuthData` | shadowsocks/obfsplugin/auth_chain.py:383-426 | the handshake followed by the first frame, and the keys both directions start from |
| `AuthChain.AuthChain.ClientPreEncrypt` | shadowsocks/obfsplugin/auth_chain.py:453-466 | the bytes of a write are those of the specified packets, before and after the handshake |
| `AuthChain.AuthChain.ServerPreEncrypt` | shadowsocks/obfsplugin/auth_chain.py:517-532 | the bytes of a server write, with the segment size announced while the frame id is one |
| `AuthChain.AuthChain.ClientPostDecrypt` | shadowsocks/obfsplugin/auth_chain.py:468-515 | the loop returns and leaves what the client's call prescribes, wrapped ids and cut announcements included |
| `AuthChain.AuthChain.CheckHello` | shadowsocks/obfsplugin/auth_chain.py:544-626 | the judgement on the first bytes of a connection |
| `AuthChain.AuthChain.OpenNext` | shadowsocks/obfsplugin/auth_chain.py:628-668 | what the frame loop finds at the front of the buffer, although the generator's fields change on every look |
| `AuthChain.AuthChain.ServerPostDecrypt` | shadowsocks/obfsplugin/auth_chain.py:534-680 | reply and every field afterwards are what one call of the server's receiver prescribes, failures included |
| `ChainTransfer.SendAll` | shadowsocks/obfsplugin/auth_chain.py:453-466 | consecutive calls on the client object emit the wire bytes of the session |
| `ChainTransfer.ReceiveAll` | shadowsocks/obfsplugin/auth_chain.py:534-680 | consecutive calls on the server object output what the sequence of calls prescribes |
| `ChainTransfer.Upload` | shadowsocks/obfsplugin/auth_chain.py:453-680 | two fresh objects on matching terms: whatever is written, wherever it is cut, comes out unchanged; with nothing buffered the server's hash, id and offset are the client's, and both hold the same keys for the way back |
| `ChainTransfer.SendDown` | shadowsocks/obfsplugin/auth_chain.py:517-532 | consecutive calls on the server object emit the frames of its writes |
| `ChainTransfer.ReceiveDown` | shadowsocks/obfsplugin/auth_chain.py:468-515 | consecutive calls on the client object output what the sequence of calls prescribes |
| `ChainTransfer.Download` | shadowsocks/obfsplugin/auth_chain.py:468-532 | what the server object is given, wherever it is cut, comes out of the client object; the client ends with the announced segment size and, with nothing buffered, in the server's chain |
| `ChainTransfer.Converse` | shadowsocks/obfsplugin/auth_chain.py:453-680 | both directions one after the other on the same two objects, from the handshake on |
| `PaddedFrames.AesRule` | shadowsocks/obfsplugin/auth.py:571-594 | with a segment size of at most 1500 every padding draw keeps the frame below 8192 |
| `PaddedFrames.ShaRule` | shadowsocks/obfsplugin/auth.py:218-230 | every padding draw of auth_sha1_v4 keeps the frame below 8192 |
| `PaddedFrames.RulesAreDraws` | shadowsocks/obfsplugin/auth.py:571-594 | the header lengths the rules allow are exactly those of the lengths the code can draw |
| `PaddedFrames.DrawsExactly` | shadowsocks/obfsplugin/auth.py:571-584 | the lengths allowed are exactly those that some random fraction, word and byte give |
| `PaddedFrames.HeaderPointsAtPayload` | shadowsocks/obfsplugin/auth.py:586-594 | in its one-byte and three-byte form the padding header leads to the payload |
| `PaddedFrames.OpenIsStable` | shadowsocks/obfsplugin/auth.py:678-715 | a decision on a frame does not depend on later bytes |
| `PaddedFrames.OpenPacked` | shadowsocks/obfsplugin/auth.py:596-604 | opening a packed frame, whatever follows it, returns its data |
| `PaddedFrames.OpenExactly` | shadowsocks/obfsplugin/auth.py:678-715 | for every buffer: incomplete, forged, refused or opened, and then with what data and length |
| `PaddedFrames.SealsAre` | shadowsocks/obfsplugin/auth.py:235-239 | the seals of both protocols: two bytes over the length, four over the frame, keyed by frame number in auth_aes128 only |
| `PaddedFrames.FrameFormat` | shadowsocks/obfsplugin/auth.py:596-604 | length, its seal, padding header, data and the seal over everything, in this order |
| `PaddedFrames.ServerToClient` | shadowsocks/obfsplugin/auth.py:678-727 | downward, for any rule of bounded draws: any writes, any padding it allows and any segmentation arrive exactly, with nothing left over and equal ids |
| `PaddedFrames.TamperingIsNoticed` | shadowsocks/obfsplugin/auth.py:678-715 | a faulty frame behind any number of frames makes the client fail, however the stream is cut |
| `PaddedFrames.AesServerToClient` | shadowsocks/obfsplugin/auth.py:678-727 | auth_aes128, for every length it draws with a segment size of at most 1500 |
| `PaddedFrames.ShaServerToClient` | shadowsocks/obfsplugin/auth.py:296-343 | auth_sha1_v4, for every length it draws |
| `PaddedSession.UpIsSteady` | shadowsocks/obfsplugin/auth.py:729-880 | handshake and frame loop together are steady |
| `PaddedSession.FaultyFrameBreaks` | shadowsocks/obfsplugin/auth.py:848-880 | a faulty frame behind the handshake breaks the call |
| `PaddedSession.ClientToServer` | shadowsocks/obfsplugin/auth.py:662-880 | upward, for any handshake that the server reads as sent and frames that fit: the session arrives exactly, with nothing left over; the two protocols below discharge both |
| `AesHandshake.GreetStable` | shadowsocks/obfsplugin/auth.py:729-846 | a welcome does not depend on later bytes, a rejection is never turned into one |
| `AesHandshake.GreetExactly` | shadowsocks/obfsplugin/auth.py:729-846 | which first bytes are rejected, undecided or welcome, and with what data, key and length, for every buffer |
| `AesHandshake.HelloIsWelcome` | shadowsocks/obfsplugin/auth.py:606-638 | the server welcomes the client's greeting, with its data, key and length |
| `AesHandshake.AesClientToServer` | shadowsocks/obfsplugin/auth.py:662-880 | auth_aes128: for a non-empty first write, a segment size of at most 1500, every length the code draws and every segmentation, the text arrives exactly |
| `ShaHandshake.GreetStable` | shadowsocks/obfsplugin/auth.py:345-420 | the judgement on the greeting does not depend on later bytes |
| `ShaHandshake.GreetExactly` | shadowsocks/obfsplugin/auth.py:345-420 | which first bytes are rejected, undecided or welcome, and with what data and length, for every buffer |
| `ShaHandshake.HelloIsWelcome` | shadowsocks/obfsplugin/auth.py:242-258 | the server welcomes the client's greeting, with its data and length |
| `ShaHandshake.ShaClientToServer` | shadowsocks/obfsplugin/auth.py:282-463 | auth_sha1_v4: for every length the code draws and every segmentation the text arrives exactly |
| `PaddedProtocol.PaddedAuth.PackData` | shadowsocks/obfsplugin/auth.py:596-604 | one frame, and the id after it |
| `PaddedProtocol.PaddedAuth.PreEncrypt` | shadowsocks/obfsplugin/auth.py:717-727 | the bytes of a write |
| `PaddedProtocol.PaddedAuth.ClientPostDecrypt` | shadowsocks/obfsplugin/auth.py:678-715 | reply, buffer, id and mode after one call; a wrong seal over the length leaves the object as it is, any other fault makes it pass everything on |
| `PaddedProtocol.PaddedAuth.ServerPostDecrypt` | shadowsocks/obfsplugin/auth.py:729-880 | reply and fields after one call; a fault is answered with the decoy or an exception, by frame id (auth_aes128) or by the count of calls with output (auth_sha1_v4) |
| `PaddedProtocol.FaultIsAnswered` | shadowsocks/obfsplugin/auth.py:820-862 | a refused handshake is answered with the decoy; a faulty frame if and only if no call has had output yet (auth_sha1_v4), or its number is zero (auth_aes128), and with an exception otherwise |
| `TlsRecords.RecordsAreDecisive` | shadowsocks/obfsplugin/obfs_tls.py:220-233 | the record receiver is decisive on both sides |
| `TlsRecords.RecordStepExactly` | shadowsocks/obfsplugin/obfs_tls.py:220-233 | more than five bytes are needed, the type must be 0x17 and for the server the version 3.3; then a record is taken as soon as it is complete |
| `TlsRecords.ForeignRecordBreaks` | shadowsocks/obfsplugin/obfs_tls.py:220-233 | a record of another type or version behind any good ones makes the receiver fail however it arrives |
| `TlsRecords.Cuts` | shadowsocks/obfsplugin/obfs_tls.py:99-107 | for every random size the cuts are non-empty, fit a record and join to the data; the first holds at least 100 bytes or everything |
| `TlsRecords.RecordsArrive` | shadowsocks/obfsplugin/obfs_tls.py:148-160 | the records of any cuts are readable in order and carry the data |
| `TlsRecords.TlsTicketAuth.Encode` | shadowsocks/obfsplugin/obfs_tls.py:96-107 | the cutting loop emits the specified records |
| `TlsRecords.TlsTicketAuth.Decode` | shadowsocks/obfsplugin/obfs_tls.py:216-233 | output and buffer after one call |
| `Encryption.UnsealSealed` | shadowsocks/encrypt.py:124-152 | decrypting what was encrypted returns the text |
| `Encryption.Encryptor.Encrypt` | shadowsocks/encrypt.py:124-134 | the IV is emitted once, in front of the first call's encrypted text, and all bytes emitted are the encryption of the text so far |
| `Encryption.Encryptor.Decrypt` | shadowsocks/encrypt.py:136-152 | the IV is collected over any number of calls and consumed once; outputs add up to the decryption of all bytes received |
| `Encryption.DecryptFragments` | shadowsocks/encrypt.py:136-152 | any segmentation of the encrypted stream decrypts to the text |
| `Encryption.KeystreamIsStreamCipher` | shadowsocks/crypto/sodium.py:114-132 | a keystream XOR meets the assumptions made of a stream cipher |
| `Encryption.SodiumCrypto.Update` | shadowsocks/crypto/sodium.py:114-132 | with the block counter and the padding of partial blocks, the output is the XOR with the keystream from the byte counter on |
| `Encryption.ChunksDoNotMatter` | shadowsocks/crypto/sodium.py:114-132 | the outputs of any chunks concatenate to one XOR from the first byte |
| `Pipeline.PipelineIdentity` | shadowsocks/tcprelay.py:1050-1095 | frames, encryption and records out, any segmentation, records, decryption and frames in: exactly the client's text, for every stream cipher with an IV of at most 100 bytes, `none` included |
| `Pipeline.IvRecorded` | shadowsocks/tcprelay.py:1086-1092 | behind TLS records the recorded IV is the sender's, however the records arrive |
| `Pipeline.PlainIvExact` | shadowsocks/tcprelay.py:1086-1092 | without them it is the sender's if and only if the first non-empty read holds all of it |
| `Pipeline.PlainIvCounterexample` | shadowsocks/tcprelay.py:1086-1092 | a first read of two bytes fixes a wrong IV |
| `ConnectionWindow.ClosedIsUnique` | shadowsocks/obfsplugin/auth_chain.py:184-208 | the closed form determines front, back and allocated ids from the accepted set |
| `ConnectionWindow.CompactCloses` | shadowsocks/obfsplugin/auth_chain.py:203-206 | the compacting loop moves the front to the least id that is neither accepted nor too old |
| `ConnectionWindow.InsertCloses` | shadowsocks/obfsplugin/auth_chain.py:184-208 | an insertion keeps the closed form |
| `ConnectionWindow.AdmitsExactly` | shadowsocks/obfsplugin/auth_chain.py:191-199 | an id is admitted if and only if it was not accepted before and lies in the window |
| `ConnectionWindow.AdmitsNearby` | shadowsocks/obfsplugin/auth_chain.py:191-199 | every unaccepted id from max(b-64, back-0x1000) to back+0x3000 is admitted |
| `ConnectionWindow.ClosedShape` | shadowsocks/obfsplugin/auth_chain.py:200-208 | allocated ids lie strictly between front and back, at most 0x1000 apart |
| `ConnectionWindow.RunCloses` | shadowsocks/obfsplugin/auth_chain.py:184-208 | every run keeps the closed form of what it accepted |
| `ConnectionWindow.OrderDoesNotMatter` | shadowsocks/obfsplugin/auth.py:123-146 | two runs that accept the same ids end in the same window |
| `ConnectionWindow.AcceptedOnce` | shadowsocks/obfsplugin/auth.py:123-146 | no id is accepted twice in a run |
| `ConnectionWindow.VerdictsExactly` | shadowsocks/obfsplugin/auth_chain.py:184-208 | in every run an id is accepted if and only if it was not accepted before and lies in the window left by the ids before it |
| `ConnectionWindow.ClientQueue.Insert` | shadowsocks/obfsplugin/auth_chain.py:184-208 | the verdict, the accepted set, reference count and time stamp after an insertion, with the re-enabling of an inactive window |
| `ConnectionWindow.ClientQueue.Slide` | shadowsocks/obfsplugin/auth_chain.py:203-206 | the loop on the fields equals the pure compaction |
| `ConnectionWindow.ClientQueue.ReEnable` | shadowsocks/obfsplugin/auth_chain.py:178-182 | the window afterwards is the fresh one |
| `ConnectionWindow.ReplayAfterRelease` | shadowsocks/obfsplugin/auth_chain.py:165-208 | a replayed id is refused while a connection holds the window, and accepted again exactly after a pause of ten minutes or once the connection is released |
| `ClientTable.TableStaysSmall` | shadowsocks/obfsplugin/auth_chain.py:231-263 | whatever is inserted, no client is listed twice and the table never outgrows its limit |
| `ClientTable.EveryRunStaysSmall` | shadowsocks/obfsplugin/auth_chain.py:231-263 | the same over every run of insertions |
| `ClientTable.RunFollows` | shadowsocks/obfsplugin/auth_chain.py:231-268 | a run is its offers one after the other |
| `ClientTable.EvictsTheNext` | shadowsocks/obfsplugin/auth_chain.py:251-252 | the exact table after an eviction: the second-oldest client is gone and the oldest one renewed |
| `ClientTable.EvictionTargetExact` | shadowsocks/obfsplugin/auth_chain.py:251-252 | the tested client is the evicted one if and only if it is the only one |
| `ClientTable.EvictionCounterexample` | shadowsocks/obfsplugin/auth_chain.py:251-252 | two clients: the inactive one stays, the active one goes |
| `ChainAdmission.FindInsert` | shadowsocks/obfsplugin/auth_chain.py:231-263 | the client's own queue decides, or a new client finds no room; other queues are left alone or evicted |
| `ChainAdmission.InsertOnObject` | shadowsocks/obfsplugin/auth_chain.py:184-208 | the queue object and the queue as a value decide and change alike |
| `ChainAdmission.AdmittedExactlyBy` | shadowsocks/obfsplugin/auth_chain.py:184-263 | a client with an active window is admitted if and only if the id is new and lies in the window |
| `ChainAdmission.NewcomerIsAdmitted` | shadowsocks/obfsplugin/auth_chain.py:231-263 | a client that is not in the table is admitted if and only if there is room or the oldest client is inactive |
| `ChainAdmission.InactiveIsAdmitted` | shadowsocks/obfsplugin/auth_chain.py:184-189 | a client whose window is not active is admitted with any id |
| `ChainAdmission.ReplayIsRefused` | shadowsocks/obfsplugin/auth_chain.py:184-270 | an accepted id is refused after any run of insertions and releases that leaves the client in the table, while its window is active |
| `ChainAdmission.ReplayedHelloIsRejected` | shadowsocks/obfsplugin/auth_chain.py:594-616 | so is the same 36-byte handshake, sent a second time |
| `ChainAdmission.NewcomerMatches` | shadowsocks/obfsplugin/auth_chain.py:594-616 | a timely newcomer with the right key is on matching terms with the server |
| `OrderedDictionary.OrderedDict.constructor` | shadowsocks/ordereddict.py:21-40 | an empty, well-formed ring |
| `OrderedDictionary.OrderedDict.SetItem` | shadowsocks/ordereddict.py:42-50 | the ring stays well-formed; a new key is last, an old key keeps its place |
| `OrderedDictionary.OrderedDict.DelItem` | shadowsocks/ordereddict.py:52-59 | the ring stays well-formed; the key is gone from ring, index and dictionary and the rest keeps its order; a missing key is reported |
| `OrderedDictionary.OrderedDict.Iterate` | shadowsocks/ordereddict.py:61-68 | walking forward visits the keys in insertion order |
| `OrderedDictionary.OrderedDict.Reversed` | shadowsocks/ordereddict.py:70-77 | walking backward visits them in reverse |
| `OrderedDictionary.OrderedDict.Clear` | shadowsocks/ordereddict.py:79-86 | an empty, well-formed ring |
| `LruCache.RunKeepsAge` | shadowsocks/lru_cache.py:64-139 | under a monotone clock, times are non-decreasing in list order after every run of operations |
| `LruCache.SweepIsExact` | shadowsocks/lru_cache.py:100-120 | a sweep that stops early has removed exactly the expired entries, oldest first |
| `LruCache.SweepIsSafe` | shadowsocks/lru_cache.py:100-120 | no sweep removes an entry that has not expired |
| `CacheHistory.CacheIsHistory` | shadowsocks/lru_cache.py:64-139 | after every run from an empty cache, each entry has the value last set, not deleted since, and the time of its last use, and the entries stand in the order of their last use |
| `CacheHistory.FoundExactly` | shadowsocks/lru_cache.py:64-84 | without sweeps and clears, a key is found if and only if it was set after it was last deleted |
| `CacheHistory.SweptRun` | shadowsocks/lru_cache.py:100-120 | at the end of every run under a monotone clock, a sweep not cut off by its limit leaves exactly the entries young enough |
| `CacheHistory.ClearedRun` | shadowsocks/lru_cache.py:122-139 | at the end of every run, a clear leaves the entries used last, as many as it is to keep |
| `LruCache.LRUCache.GetItem` | shadowsocks/lru_cache.py:64-70 | the value, and the key moved to the end; a missing key changes nothing |
| `LruCache.LRUCache.SetItem` | shadowsocks/lru_cache.py:72-78 | the entry is last, with the current time |
| `LruCache.LRUCache.DelItem` | shadowsocks/lru_cache.py:80-84 | the entry is gone from both tables |
| `LruCache.LRUCache.First` | shadowsocks/lru_cache.py:95-98 | the oldest key, or none |
| `LruCache.LRUCache.Sweep` | shadowsocks/lru_cache.py:100-120 | contents, result and the values closed, each once and oldest first |
| `LruCache.LRUCache.Clear` | shadowsocks/lru_cache.py:122-139 | exactly the `keep` most recently used entries are left, the others closed once |
| `RelayFlow.HandleKeeps` | shadowsocks/tcprelay.py:1287-1344 | every enabled event keeps masks, conservation, waiting states and the counter law |
| `RelayFlow.RunKeeps` | shadowsocks/tcprelay.py:1287-1344 | so does every run |
| `RelayFlow.RunTakesOver` | shadowsocks/tcprelay.py:1021-1235 | over every run that is not destroyed, what counts as received is the data of all read events in order, less the address header of the first |
| `RelayFlow.SendsExactly` | shadowsocks/tcprelay.py:412-473 | an event sends exactly what the kernel took, from the front of what was offered to it |
| `RelayFlow.EndsExactly` | shadowsocks/tcprelay.py:1287-1344 | a connection ends exactly when a side closes, a send fails, the header or the name is bad, or an error is reported; its masks are then unregistered |
| `RelayFlow.StagesFollow` | shadowsocks/tcprelay.py:1021-1254 | which stage follows which event |
| `RelayFlow.EveryRunConserves` | shadowsocks/tcprelay.py:412-473 | sent bytes followed by pending bytes are the concatenated data of the read events, less the address header, in both directions; a direction with pending data is not reading; masks are what the statuses prescribe |
| `RelayFlow.ReadKeepsOrderExactly` | shadowsocks/tcprelay.py:1126-1140 | a read of the client in stage STREAM keeps the order if and only if what the kernel takes of it commutes with what is pending |
| `RelayFlow.TargetReadKeepsOrderExactly` | shadowsocks/tcprelay.py:1142-1235 | the same for a read of the target |
| `RelayFlow.ReadsAreSafeExactly` | shadowsocks/tcprelay.py:1287-1344 | every read keeps the order if and only if nothing is pending in its direction, which is when the mask asks for it |
| `RelayFlow.StaleReadCounterexample` | shadowsocks/tcprelay.py:1287-1344 | a reachable state and a stale event with which bytes 1, 2, 3 leave as 1, 3 |
| `RelayFlow.RecountedExactly` | shadowsocks/tcprelay.py:412-416 | over every run, bytes are counted again if and only if there is a second flush |
| `RelayFlow.CounterIsExactly` | shadowsocks/tcprelay.py:412-416 | the upstream counter shows the client's bytes if and only if no flush after the first found data pending, and more otherwise |
| `RelayFlow.CounterCounterexample` | shadowsocks/tcprelay.py:1246-1254 | two bytes sent one at a time are counted as three |
| `TcpRelay.TCPRelayHandler.UpdateStream` | shadowsocks/tcprelay.py:308-338 | statuses and masks after the dirty check |
| `TcpRelay.TCPRelayHandler.WriteToRemote` | shadowsocks/tcprelay.py:412-473 | sent and pending bytes, status and counter after a send |
| `TcpRelay.TCPRelayHandler.WriteToLocal` | shadowsocks/tcprelay.py:412-473 | sent and pending bytes and status after a send |
| `TcpRelay.TCPRelayHandler.OnLocalRead` | shadowsocks/tcprelay.py:1021-1140 | the state after a read from the client, by stage |
| `TcpRelay.TCPRelayHandler.OnDnsResolved` | shadowsocks/tcprelay.py:883-955 | the state once the target is known |
| `TcpRelay.TCPRelayHandler.OnRemoteRead` | shadowsocks/tcprelay.py:1142-1235 | the state after a read from the target |
| `TcpRelay.TCPRelayHandler.OnLocalWrite` | shadowsocks/tcprelay.py:1237-1244 | the state after the client's socket became writable |
| `TcpRelay.TCPRelayHandler.OnRemoteWrite` | shadowsocks/tcprelay.py:1246-1254 | the state after the target's socket became writable |
| `TcpRelay.TCPRelayHandler.HandleEvent` | shadowsocks/tcprelay.py:1287-1344 | the object follows the step function, reads over the speed limit put off and removed users cut off, and keeps the invariant under enabled events |
| `TcpRelay.TCPRelayHandler.HandleEvents` | shadowsocks/tcprelay.py:1287-1344 | a whole run on a new object: sent followed by pending is the data of the read events in both directions, masks are as prescribed, and the counter is right exactly without a second flush |
| `SpeedLimit.SpeedTester.Add` | shadowsocks/tcprelay.py:110-117 | the meter after bytes were added |
| `SpeedLimit.SpeedTester.IsExceed` | shadowsocks/tcprelay.py:119-127 | the meter and the verdict |
| `SpeedLimit.RateBound` | shadowsocks/tcprelay.py:101-127 | over every interval [t0, t1] fewer than speed*(t1-t0) + speed + B bytes are admitted, if each admission of at most B bytes follows a negative test |
| `SpeedLimit.ExceedsExactly` | shadowsocks/tcprelay.py:119-127 | the test refuses if and only if what time has not worn off since the last look is at least one second's worth |
| `SpeedLimit.Recovers` | shadowsocks/tcprelay.py:119-127 | after a pause in which the limit would have carried the level, nothing is refused |
| `SpeedLimit.RefusedOnlyAtLimit` | shadowsocks/tcprelay.py:101-127 | over every run from an empty level, a refusal at t1 means that in some interval [t0, t1] at least speed*(t1-t0) + speed bytes were admitted |
| `DnsCodec.DottedSplit` | shadowsocks/asyncdns.py:97-99 | joining the split text returns it |
| `DnsCodec.SplitDotted` | shadowsocks/asyncdns.py:97-99 | splitting joined labels returns them |
| `DnsCodec.BuildAddress` | shadowsocks/asyncdns.py:97-108 | the encoded labels, or nothing if and only if a label is longer than 63 bytes |
| `DnsCodec.StripExactly` | shadowsocks/asyncdns.py:97-98 | dots are taken off both ends, all of them and nothing else, before the name is cut |
| `DnsCodec.ReadName` | shadowsocks/asyncdns.py:130-148 | the loop with its recursion computes the decoded name and length, or fails |
| `DnsCodec.LabelsResolve` | shadowsocks/asyncdns.py:130-148 | label by label, the code agrees with section 4.1.4 of RFC 1035 |
| `DnsCodec.ParseNameResolves` | shadowsocks/asyncdns.py:130-148 | any encoding with strictly backward pointers to non-empty suffixes decodes to its name and length, if and only if the pointer chain fits the call stack; the chain is never longer than the offset |
| `DnsCodec.PointerResolves` | shadowsocks/asyncdns.py:119-148 | labels in front of a pointer to an earlier name stand for the labels and that name together |
| `DnsCodec.PointerLoopFails` | shadowsocks/asyncdns.py:130-148 | a pointer to itself fails with every stack |
| `DnsCodec.RoundTripExactly` | shadowsocks/asyncdns.py:97-148 | wherever it stands in a message, an encoded name decodes to itself and its length if and only if all labels have 1 to 63 bytes |
| `DnsMessages.ReadRecords` | shadowsocks/asyncdns.py:217-234 | one loop over a section, with the offset behind it |
| `DnsMessages.ParseResponse` | shadowsocks/asyncdns.py:208-246 | a response if and only if all four sections can be read; host name, questions and answers |
| `DnsMessages.RecordIsRead` | shadowsocks/asyncdns.py:173-186 | a well-formed record is read as it stands and the next offset is its end, if and only if the call stack admits its pointers |
| `DnsMessages.RecordExactly` | shadowsocks/asyncdns.py:151-186 | behind a readable name, a question or record can be read if and only if its fixed fields are there and its payload is what its type demands; it then gives type, class, payload and where the next one starts |
| `DnsMessages.WellFormedIsParsed` | shadowsocks/asyncdns.py:208-246 | every well-formed message is parsed if and only if the call stack admits its pointers; record i is the one that starts where the layout says |
| `DnsMessages.ReplyIsUnderstood` | shadowsocks/asyncdns.py:208-246 | the usual reply, whose answers point back at the question, gives back name, question and every address; one nested call is enough, and needed |
| `DnsLookups.EveryRunIsAccounted` | shadowsocks/asyncdns.py:364-503 | over all interleavings: hosts with a status are those with waiters, the reverse dictionary agrees with the lists, and each callback handed in is in exactly one of pending, called once, cancelled |
| `DnsLookups.CancelReaches` | shadowsocks/asyncdns.py:440-450 | cancelling removes a waiter if and only if the reverse dictionary knows it, and no other waiter |
| `DnsLookups.CancelExactly` | shadowsocks/asyncdns.py:459-503 | a pending waiter can be cancelled if and only if nobody waited for its host when it was handed in |
| `DnsLookups.CancelCounterexample` | shadowsocks/asyncdns.py:440-503 | the second of two waiters is called although it was cancelled |
| `DnsLookups.SecondNeedsFallback` | shadowsocks/asyncdns.py:379-416 | the second address family is asked for only after an address-less reply found the first, in the same episode |
| `DnsLookups.FailureNeedsFallback` | shadowsocks/asyncdns.py:379-416 | a failure is reported only by an address-less reply with the second family's question, after such a fallback |
| `DnsLookups.FallbackOncePerEpisode` | shadowsocks/asyncdns.py:379-416 | between two fallbacks for a host its look-up has ended |
| `DnsLookups.FirstAddressExactly` | shadowsocks/asyncdns.py:384-388 | the address is the payload of the first answer of type A or AAAA and class IN, and there is none if there is no such answer |
| `DnsLookups.AddressIsTold` | shadowsocks/asyncdns.py:379-391 | a reply with an address is cached and told to everybody waiting for the host, in order, who are then forgotten |
| `DnsLookups.NoAddressIsHandled` | shadowsocks/asyncdns.py:392-416 | a reply without an address asks for the other family if the first was asked for, reports failure if it carries the second family's question, and changes nothing otherwise |
| `DnsLookups.ResolveExactly` | shadowsocks/asyncdns.py:459-503 | what a look-up is told at once and from where, or who waits and what is asked |
| `DnsLookups.AddressesHaveSources` | shadowsocks/asyncdns.py:364-503 | over every run, each cached address and each address told is one that a reply told of that host, or that the hosts file lists |
| `DnsResolver.DNSResolver.Resolve` | shadowsocks/asyncdns.py:459-503 | dictionaries, calls and queries after a look-up is asked for |
| `DnsResolver.DNSResolver.CallCallback` | shadowsocks/asyncdns.py:364-377 | everybody waiting is told once, in order, and forgotten in all three dictionaries |
| `DnsResolver.DNSResolver.HandleData` | shadowsocks/asyncdns.py:379-416 | dictionaries, cache, calls and queries after a reply |
| `DnsResolver.DNSResolver.RemoveCallback` | shadowsocks/asyncdns.py:440-450 | dictionaries after a cancellation |
| `DnsResolver.PickAddress` | shadowsocks/asyncdns.py:383-388 | the payload of the first answer of type A or AAAA and class IN, or nothing if there is none |
| `RelayCounters.BytesAreConserved` | shadowsocks/tcprelay.py:1578-1594 | unattributed bytes and the bills of all users add up to the bytes added |
| `RelayCounters.Counter.AddTransfer` | shadowsocks/tcprelay.py:1578-1585 | after any history, each user's counter holds what it added plus the unattributed bytes just before, and the rest is unattributed |
| `ServerPool.Charge` | server_pool.py:263-268 | each port's figure grows by its user's bytes and the total by all of them |
| `ServerPool.UpdateMuTransfer` | server_pool.py:263-273 | uploads and downloads are charged to their users and to nobody else |
| `ServerPool.Servers.GetServerTransfer` | server_pool.py:240-258 | the four relays of a port together |
| `ServerPool.Servers.GetServersTransfer` | server_pool.py:275-295 | every port's figure is what the four pools counted for it, and the sum over ports is the sum over pools, whatever ports and users coincide |
| `TransferPush.RoundSettles` | db_transfer.py:34-82 | a round settles an id up to the counter read if its increment is acknowledged, and leaves it alone otherwise |
| `TransferPush.BilledIsRecorded` | db_transfer.py:34-82 | over all rounds and acknowledgements, the increments billed sum to `last_update_transfer`, which never exceeds a growing counter |
| `TransferPush.ForcedRound` | db_transfer.py:42-46 | a forced id is billed the rest of the last reading, once, and forgotten |
| `TransferPush.RestartExactly` | db_transfer.py:42-46 | at a restart everything in the last reading has been billed if and only if nothing was left over, or the id had been billed before and this round is acknowledged |
| `TransferPush.RestartCounterexample` | db_transfer.py:42-46 | a first small amount is lost |
| `TransferPush.PutOffAtMost32` | db_transfer.py:335-347 | unreported traffic is put off at most 32 rounds in a row |
| `TransferPush.OfferedExactly` | db_transfer.py:34-59 | apart from forced ids, an id is offered if and only if its counter exceeds its record and it is not shared, and with exactly the difference |
| `TransferPush.DueExactly` | db_transfer.py:335-347 | an amount is sent if and only if it is forced or reaches 2 MiB less 64 KiB for every time it was put off |
| `TransferPush.BilledWithin33` | db_transfer.py:34-82 | traffic that stays unreported through 33 accepted rounds is billed in one of them, with exactly the difference, and the record then equals the counter read |
| `TransferPush.DbTransfer.UpdateAllUser` | db_transfer.py:325-347 | which offers the database takes, the deferral counts afterwards, and when an unreachable database raises an exception |
| `TransferPush.DbTransfer.PushDbAllUser` | db_transfer.py:34-82 | the books after a round and which ids it acknowledged; an exception leaves all but the deferral counts as it was |
| `TransferPush.DbTransfer.PushRound` | db_transfer.py:34-82 | a round on the object follows the round on the books |

## Left out

- OpenSSL, libsodium, HMAC, MD5, SHA1, CRC and Adler internals, and the sources of randomness: function-valued fields and parameters.
- The contents of the TLS handshake messages in `obfs_tls`, HTTP header mimicry in `http_simple`: fixed byte templates.
- `auth_akarin`: repeats `auth_chain`, with different MSS fields consulted for sending and receiving.
- `auth_chain_f`: its size list is initialised on the receiving server only.
- UDP variants of the protocols, UDP over TCP, the UDP relay, redirection, fast open, the SOCKS greeting in client mode.
- The time-stamp test of the handshakes is a parameter, since it compares with the clock; so is admission (`admit`), except where `ChainAdmission` puts the table of windows behind it.
- ChainDown.ServerToClient: assumes fewer than 2^32-1 frames; afterwards a frame is numbered one again and loses two bytes.
- AuthChain.AuthChain.ServerPreEncrypt: assumes a unit of at least one byte; with none or a negative one the source's loop does not end.
- AesHandshake.AesClientToServer: an empty first write sends no handshake, so the first write must not be empty.
- Encryption.SodiumCrypto.Update: does not model the rounding of the counter division above 2^53 bytes nor the 32-bit block counter of the IETF variant.
- ClientTable.TableStaysSmall: the table is modelled on values, so that aliasing of a queue between table and caller is not captured; `update`, which only renews a time stamp, is left out. `ChainAdmission` takes one user's table; the dictionary of tables by user is left out.
- RelayFlow.EveryRunConserves: server mode with the plain plugins and a TCP target, events enabled by the current masks; a hang-up, which the event loop reports whatever the mask, is a read that `RelayFlow.ReadsAreSafeExactly` judges.
- DnsMessages.ParseResponse: an address is kept as its bytes; the text form made by `inet_ntop` and the fields that the response drops (identifier, flags, time to live) are left out.
- DnsLookups.EveryRunIsAccounted: every look-up has a callback of its own, and callbacks do not call the resolver back; the cache drops entries at arbitrary moments; `is_ip` and `is_valid_hostname` are parameters.
- RelayCounters.Counter.AddTransfer: one object per direction; a user is the number its four identifier bytes encode.
- TransferPush.DbTransfer.PushDbAllUser: the online-user cache and the SQL text are left out, and `transfer_mul`, which only scales what is written to the database.
- Multi-user counter resets, configuration parsing, daemon, shell scripts, event-loop back ends, text converters for IPv6 addresses.
