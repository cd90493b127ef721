# Verified core of the open62541 stack

This project models the parts of open62541 (an OPC UA stack in C) where correctness depends on
many operations working together, and proves what those parts are for.

- **Nodestore** (`ProbeTable`, `HashSlots`, `StoreModel`, `FreshIds`, `NodeMap`, `StoreSession`). The store is an
  open-addressing hash map with double hashing over prime sizes, tombstones and resizing. The
  class `NodeMap.Map` performs the store's calls on an array of slots and on entry objects. Every
  call is proved to perform the corresponding step of `StoreModel`, where the store is a plain map
  from node id to version. Over all runs of that model: a get sees the last successful write, reference counters are true, memory is
  released once and only when unused, borrowers keep their version, and no update is lost.
  `StoreSession` shows that every sequence of calls on the object is such a run.
- **TCP stream cutting** (`Connection`). Packets are turned back into chunks. The class
  `TcpConnection` is proved against a reference parse of one contiguous byte string, and that parse
  does not depend on where the packets were cut.
- **Secure channel** (`SymmetricChunk`, `ChunkSecurity`, `SequenceNumbers`, `Reassembly`,
  `ChunkList`, `Channel`, `SecureChannel`, `Tokens`, `MessageContext`, `EndToEnd`, `RsaBlocks`,
  `Transfer`, `OpenMessage`, `Reception`). Chunks are padded, signed and encrypted, sequence numbers and tokens are checked,
  and messages are put together per request id. With stream cutting this gives the end-to-end
  theorem: whatever the messages, their split into chunks and the cut of the byte stream into
  packets, the receiving application gets exactly the messages, in order. `Transfer` carries this
  over to the objects: a channel object sends, a connection and a channel object receive.
  `Reception` says what is refused: over any run no forged, replayed or foreign chunk reaches the
  application or changes what the channel has collected.
- **Key derivation** (`KeyDerivation`). P_hash (section 5 of RFC 5246) with two swapped buffers.
- **Arithmetic kernels** (`Calendar`, `Pcg`). Seconds to calendar date, and the full period of the
  random generator.
- `Bytes` and `NumberTheory` hold little-endian numbers and Euclid's lemma with its consequences.

Where the source changes state the model has classes and methods; each method is specified by a
function or relation whose own properties are the lemmas below.

## What the proofs found

Each of these is a promise that the code does not keep on all inputs, with an input where it fails
and the exact condition under which it holds.

- `setBufPos` reserves two bytes for padding. That is enough for every admitted body exactly when
  (buffer length - 16) is a multiple of the block size (`PaddedFitsIff`); the default length 65535
  with 16-byte blocks is a counterexample (`DefaultBufferTooShort`). The chunk is written behind the
  buffer exactly when it does not fit (`SendChunk`).
- `hideBytesAsym` has the same gap for OPN messages: every admitted body fits exactly when the RSA
  blocks of the largest one do, which depends on room and key only (`OpnFitsIff`); 65535 bytes of
  room behind the clear header with 2048-bit keys and 245-byte blocks are a counterexample
  (`OpnReserveTooShort`).
- `decryptChunk` reads the padding length before it checks that there is one. For a symmetric chunk
  it reads outside the chunk exactly in mode sign-and-encrypt, for whole blocks, when the chunk is
  not longer than the signature (`SymmetricPayloadInBounds`). A chunk of 16 bytes, which the
  connection lets through, is such a case (`HeaderOnlyChunkReadsOutside`). For an OPN chunk the last
  length check compares with the received length, not with that of the shorter plain text, so the
  payload length can also come out negative; `OpnUndefinedIff` says exactly when either happens, and
  a signed plain text of three bytes is such a case (`OpnPayloadLengthWraps`).
- The sender of an OPN message decides by the receiver's key length whether to write a second
  padding length byte, and the receiver decides by the sender's. The body is recovered exactly when
  both keys are on the same side of 2048 bits (`OpnOpensIff`); a 2048-bit receiver and a 4096-bit
  sender are a counterexample (`KeysOnDifferentSides`). With a receiver's key above and a sender's
  key up to 2048 bits the message is accepted and padding is delivered as part of the body, without
  an error (`OpnCorrupted`).
- An OPN message is put together like any other: bytes pending under its request id come in front of
  its body. The application gets it as sent exactly when there are none (`BodyArrivesIff`); an OPN
  sent while a message with its request id is unfinished is a counterexample
  (`OpnBehindPartialMessage`).
- A refused chunk should leave the channel as it was. The token check revolves to the next token
  before the signature is looked at, so tokens and keys stay exactly when the chunk does not name
  the next token (`RefusedRevolvesIff`); a bare header is a counterexample
  (`HeaderOnlyChunkRevolves`). Application, sequence number and collected bytes stay in any case
  (`ForgedRefused`, `WrongNumberRefused`).
- `__secs_to_tm` increments `tm_year` after its range check. The field leaves the int range exactly
  for instants in January and February of the last accepted year (`SecsToTm`); midnight of the first
  of January of that year is the first (`YearFieldOverflows`).
- The nodestore interface promises that a failed insert or replace deletes the node. It is deleted
  exactly when its id is stored and the table did not fail to grow (`FailureFreesIff`). A copy whose
  original was removed is a counterexample (`RemovedBeforeReplace`); such a node stays allocated
  until the user deletes it or uses it again (`PrivateUntilConsumed`).
- The comment in `insertNode` says the search for a fresh id ends when the start id comes up again.
  It never does: all later ids are smaller (`BelowStart`). The search ends because there are fewer
  nodes than slots (`FreshLoop`). The id found may be below 50000 (`FreshBelow50000`).
- The bound on replayed sequence numbers, 4294965249 chunks, is reached (`ReplayBoundIsTight`).

## Assumptions

- The numbers in the table of sizes are prime (`TableIsPrime`); the hash of a node id is any function.
- Allocation succeeds, except that resizing the node table may fail. An entry's memory is not given to another entry while pointers to the
  old one are compared, so entry identity is object identity.
- Users edit private nodes only, as the interface asks and as a build with immutable nodes does. The
  default build also edits stored nodes in place (`src/server/ua_server_utils.c:357-364`); what
  `BorrowedVersionStays` says about the content of a node does not hold across such an edit.
- Store calls run one at a time, with at most 536870894 nodes and at most 65535 outstanding borrows
  of one version. Up to that count no 32-bit product of the load conditions wraps (`ProductsInRange`).
- Cryptography is abstract: a message authentication code and a block cipher given as functions,
  with decryption undoing encryption (`SymPolicy`, `Rsa`, `Hash`). These types are inhabited.
  The policy without security reports block size zero; nothing in mode none depends on that size, so
  any size stands for it.
- The status `Undefined` stands for a read or write outside the chunk or the buffer.

## Model

| member | source | states |
|---|---|---|
| ProbeTable.EverySlotProbed | plugins/ua_nodestore_default.c:75-119 | for a prime size and any hash, double hashing visits every slot within one round |
| ProbeTable.ProbesDistinct | plugins/ua_nodestore_default.c:108-114 | no slot comes up twice within one round |
| ProbeTable.ProbeIsDoubleHashing | plugins/ua_nodestore_default.c:75-76 | probe i of hash h is (h + i * (1 + h mod (n - 2))) mod n |
| ProbeTable.SearchMayStop | plugins/ua_nodestore_default.c:220-243 | a search that saw an empty slot or a full round without the key proves that the key is not stored anywhere |
| ProbeTable.FillKeepsInv | plugins/ua_nodestore_default.c:93-119 | putting a key into a free slot with no empty slot before it on its path keeps every key reachable and unique |
| ProbeTable.BuryKeepsInv | plugins/ua_nodestore_default.c:206-212 | a tombstone in place of a key keeps every other key reachable |
| ProbeTable.RoomLeft | plugins/ua_nodestore_default.c:345-350 | pigeonhole: fewer keys than slots leave a slot without a key |
| HashSlots.HigherPrimeIndex | plugins/ua_nodestore_default.c:78-91 | the binary search returns the position of the least table size not below n |
| HashSlots.SizesDouble | plugins/ua_nodestore_default.c:67-73 | each table size is the stated small distance below a power of two, from 8 to 2^32 |
| HashSlots.FindOccupiedSlot | plugins/ua_nodestore_default.c:220-243 | terminates, and finds a slot holding the id exactly when the id is stored |
| HashSlots.FindFreeSlot | plugins/ua_nodestore_default.c:93-119 | terminates; null exactly when the id is stored or no slot is free, otherwise a free slot where the id will be found again |
| HashSlots.MoveEntry | plugins/ua_nodestore_default.c:143-150 | a slot is always found while rehashing, and exactly one key is added |
| HashSlots.Rehash | plugins/ua_nodestore_default.c:135-154 | the new array holds exactly the live entries of the old one and satisfies the table invariant |
| NodeMap.Map.constructor | plugins/ua_nodestore_default.c:485-519 | an empty store of size 127 that satisfies the invariant |
| NodeMap.Map.Expand | plugins/ua_nodestore_default.c:122-154 | stored versions unchanged; unless well filled or out of memory, the new size is the least table size that is at least twice the count |
| NodeMap.ProductsInRange | plugins/ua_nodestore_default.c:122-130 | no product of the load conditions wraps in the supported range |
| NodeMap.Map.SizeAndCount | plugins/ua_nodestore_default.c:345-350 | in every valid state the size is one of the primes, the count field is the number of stored nodes, the load is below three quarters but for the last entry, and a free slot exists |
| NodeMap.Map.GetNode | plugins/ua_nodestore_default.c:269-281 | refines the Get step: null exactly for unknown ids, otherwise the stored version with one more reference |
| NodeMap.Map.ReleaseNode | plugins/ua_nodestore_default.c:283-297 | refines the Release step: one reference less, and the memory goes with the last one of a removed version |
| NodeMap.Map.NewNode | plugins/ua_nodestore_default.c:249-255 | refines the New step: a private version in fresh memory |
| NodeMap.Map.GetNodeCopy | plugins/ua_nodestore_default.c:299-324 | refines the Copy step: a fresh private copy that remembers the version it was taken from |
| NodeMap.Map.DeleteNode | plugins/ua_nodestore_default.c:257-267 | refines the Delete step on a private version |
| NodeMap.Map.EditNode | include/ua_plugin_nodestore.h:469-472 | refines the Edit step: the user of a copy may write to it, and nothing stored changes |
| NodeMap.Map.CleanupEntry | plugins/ua_nodestore_default.c:200-204 | memory is released if and only if the entry is removed and unreferenced, never twice |
| NodeMap.Map.ClearSlot | plugins/ua_nodestore_default.c:206-218 | exactly this id leaves the map, its version is retired, and shrinking, if there is memory for it, keeps everything else |
| NodeMap.Map.RemoveNode | plugins/ua_nodestore_default.c:326-338 | refines the Remove step, status included; if there is memory the table is not left more than seven eighths empty, unless it is one of the four smallest |
| NodeMap.Map.InsertNode | plugins/ua_nodestore_default.c:340-409 | refines the Insert step; a node with the numeric id 0 of any namespace gets the first unused candidate there, found after at most count + 1 tries, and any other id is kept; refused, with nothing changed, exactly when a full table finds no memory |
| NodeMap.FirstFreshId | plugins/ua_nodestore_default.c:353-374 | the first fresh id of an empty store, in every namespace, is 50128 |
| NodeMap.FreshBelow50000 | plugins/ua_nodestore_default.c:353-374 | a store in which the next fresh id is below the intended range |
| NodeMap.FreshLoop | plugins/ua_nodestore_default.c:353-374 | the loop terminates with an unused id and a slot for it and never returns to its start id |
| NodeMap.Map.ReplaceNode | plugins/ua_nodestore_default.c:411-444 | refines the Replace step: success exactly for a copy of the stored version, a stale copy is freed, an unknown id leaves everything alone |
| FreshIds.CandidatesDistinct | plugins/ua_nodestore_default.c:361-374 | ids tried within one round are pairwise different |
| FreshIds.BelowStart | plugins/ua_nodestore_default.c:357-374 | every id after the first is smaller than the start id |
| FreshIds.TakenBound | plugins/ua_nodestore_default.c:366-374 | if the first k candidates are all stored then k is at most the number of nodes |
| StoreModel.StepKeepsInv | plugins/ua_nodestore_default.c:249-444 | every permitted call keeps the lifetime invariant |
| StoreModel.StatusTells | plugins/ua_nodestore_default.c:249-444 | the status of every call by what is stored; in particular a remove succeeds if and only if its id is stored |
| StoreModel.NodesAreKept | plugins/ua_nodestore_default.c:249-444 | a version holds the node it was made with or a copy of the stored one; later its attributes change by edits only, and its id by edits and by its insertion |
| StoreModel.BorrowLimitIsSharp | plugins/ua_nodestore_default.c:269-281 | one borrow more than 65535 makes the 16-bit counter zero |
| StoreModel.RunInv | plugins/ua_nodestore_default.c:249-444 | the lifetime invariant holds in every state of every well-paired run |
| StoreModel.LastWriteWins | plugins/ua_nodestore_default.c:326-444 | over any run the store holds under an id exactly what the last successful insert, remove or replace of that id left there |
| StoreModel.NeverWritten | plugins/ua_nodestore_default.c:326-444 | an id that no successful call has written is not stored |
| StoreModel.GetSeesLastWrite | plugins/ua_nodestore_default.c:269-281 | a get lends out the version that the last successful write stored, and nothing after a removal |
| StoreModel.CountersAreTrue | plugins/ua_nodestore_default.c:269-297 | in every reachable state the counter of a version is the number of borrows not yet returned |
| StoreModel.FreedOnceAndOnlyUnused | plugins/ua_nodestore_default.c:194-218 | over any run a version is freed at most once, and only when unlinked and not borrowed |
| StoreModel.FreedByACall | plugins/ua_nodestore_default.c:194-218 | a version whose memory is gone was freed by a call of the run; with the row above, by exactly one |
| StoreModel.UnusedIsFreed | plugins/ua_nodestore_default.c:200-218 | over any run a version that left the store and is not borrowed has been freed |
| StoreModel.BorrowedVersionStays | plugins/ua_nodestore_default.c:269-297 | a borrowed version keeps its content and its memory until it is returned, whatever is removed or replaced meanwhile |
| StoreModel.ReplaceSucceedsIff | plugins/ua_nodestore_default.c:411-444 | replace succeeds if and only if the stored version is the one the copy was taken from, and then retires it |
| StoreModel.FailureFreesIff | include/ua_plugin_nodestore.h:474-485 | a failed insert or replace frees the node if and only if its id is stored and the table did not fail to grow; otherwise nothing changes |
| StoreModel.RemovedBeforeReplace | plugins/ua_nodestore_default.c:411-421 | a whole run in which a failed replace does not free the node |
| StoreModel.PrivateUntilConsumed | plugins/ua_nodestore_default.c:411-421 | over any run such a node stays allocated until it is deleted, inserted, or replaced under a stored id |
| StoreModel.NoLostUpdate | plugins/ua_nodestore_default.c:299-324 | over any run at most one replace succeeds among all copies of one version |
| StoreSession.ExtendedIsPaired | plugins/ua_nodestore_default.c:249-444 | a run with one more permitted call, whose borrow or release keeps the books balanced, is again a well-paired run |
| StoreSession.Session.Insert | plugins/ua_nodestore_default.c:340-409 | after the call the object is in the last state of the run extended by this insertion, with its status |
| StoreSession.Session.Get | plugins/ua_nodestore_default.c:269-281 | the object follows the run, and the node returned is the one the run lends out |
| StoreSession.Session.Release | plugins/ua_nodestore_default.c:283-297 | whoever has an outstanding borrow may release it, and the object follows the run |
| StoreSession.Session.Remove | plugins/ua_nodestore_default.c:326-338 | the object follows the run, with the status of the call |
| StoreSession.Session.Replace | plugins/ua_nodestore_default.c:411-444 | the object follows the run, with the status of the call |
| Connection.FramingStable | src/ua_connection.c:92-145 | bytes that arrive later never change a decision about the chunk in front |
| Connection.PacketsAreOneStream | src/ua_connection.c:147-176 | receiving packets one by one gives the same result as parsing their concatenation |
| Connection.CutsAgree | src/ua_connection.c:147-176 | two cuts of one stream deliver the same chunks, application state and first error |
| Connection.NothingLost | src/ua_connection.c:64-145 | without an error, delivered chunks followed by the carry-over are the received bytes, and the carry-over holds no complete chunk and is shorter than max(8, limit) |
| Connection.TcpConnection.ProcessChunk | src/ua_connection.c:92-145 | one step either ends with the outcome of the reference parse or leaves that outcome to the rest |
| Connection.TcpConnection.ProcessChunks | src/ua_connection.c:147-176 | the loop computes the outcome of the reference parse of carry-over plus packet and keeps its remainder |
| Connection.WaitsExactly | src/ua_connection.c:92-138 | with a whole header at hand the receiver waits exactly when some further bytes complete the chunk, no more and no less |
| Connection.RefusedIff | src/ua_connection.c:107-131 | a header is refused if and only if its first three characters are none of six words, its fourth is not C, F or A, or its size is below 16 or above the limit, with the status of each |
| Connection.WholeChunkIsHandedOver | src/ua_connection.c:92-145 | a whole chunk of any of the six types and three kinds goes to the callback, and the parse goes on behind it |
| SequenceNumbers.NoEarlyReplay | src/ua_securechannel.c:894-912 | a number accepted twice lies at least 4294965249 accepted chunks apart |
| SequenceNumbers.ReplayBoundIsTight | src/ua_securechannel.c:894-912 | a run of accepted numbers that reaches this distance |
| SequenceNumbers.RollOverWindow | src/ua_securechannel.c:902-909 | out of order exactly the numbers up to 1023 are accepted, behind 4294966271 to 4294967294 |
| SequenceNumbers.CountingSenderAccepted | src/ua_securechannel.c:487-598 | a sender that counts by one modulo 2^32 is never rejected |
| Reassembly.PendingIsSinceLastClose | src/ua_securechannel.c:726-774 | after any interleaving, what is pending for an id is exactly its bodies since its last final or abort chunk |
| Reassembly.FinalDeliversSinceLastClose | src/ua_securechannel.c:775-801 | a final chunk delivers exactly those bodies and its own; other chunks deliver nothing |
| Reassembly.MessagesArrive | src/ua_securechannel.c:1061-1071 | messages sent one after the other come out complete and in order |
| ChunkList.Chunks.InsertHead | deps/queue.h:226-231 | the list stays well linked with the new entry in front |
| ChunkList.Chunks.Remove | deps/queue.h:233-240 | the list stays well linked without exactly this entry |
| ChunkList.Chunks.Find | deps/queue.h:194-197 | the traversal finds the entry of an id or shows that there is none |
| ChunkList.Chunks.AppendChunk | src/ua_securechannel.c:739-773 | the linked list stays valid with one entry per id, and its table is updated at this id only |
| ChunkList.Chunks.RemoveChunks | src/ua_securechannel.c:726-737 | the list stays valid and exactly this id leaves the table |
| ChunkList.Chunks.FinalizeChunk | src/ua_securechannel.c:775-801 | returns the collected bytes followed by the last body; exactly this id leaves the table |
| KeyDerivation.GenerateKey | plugins/ua_securitypolicy_basic128rsa15.c:473-557 | for every secret, seed and length the output is the first bytes of P_hash, through all buffer swaps and a partial last block |
| KeyDerivation.PHashDeterminesBytes | plugins/ua_securitypolicy_basic256sha256.c:502-579 | the first n bytes do not depend on how many blocks are computed beyond them |
| KeyDerivation.FirstBlocks | plugins/ua_securitypolicy_basic128rsa15.c:505-551 | the first two blocks of P_hash written out in HMACs of secret and seed |
| Channel.DeriveKeys | src/ua_securechannel.c:137-206 | the three keys have their lengths and together are the whole key material, without gap or overlap |
| Channel.PeersDeriveMatchingKeys | src/ua_securechannel.c:208-219 | with exchanged nonces each end's local keys are the other's remote keys |
| Channel.KeyDirection | src/ua_securechannel.c:137-219 | local keys are the P_hash of the remote nonce as secret and the local nonce as seed, remote keys the other way round |
| Channel.RevolvedState | src/ua_securechannel.c:232-242 | revolving makes the next token current with newly derived keys and uses it up; without a next token it fails, and nothing else changes |
| Tokens.ReplacedTokenRejected | src/ua_securechannel.c:232-242 | over any run a replaced token id is refused unless it was issued again |
| Tokens.AcceptedTokenIsCurrent | src/ua_securechannel.c:939-949 | a token id is accepted if and only if it is current or issued next, and then it is current; a refusal changes nothing |
| SymmetricChunk.PaddingCorrect | src/ua_securechannel.c:452-465 | the encrypted part is a whole number of blocks and the padding tells the receiver its own length |
| SymmetricChunk.PaddedFitsIff | src/ua_securechannel.c:467-485 | every body that setBufPos admits fits if and only if (buffer length - 16) is a multiple of the block size |
| SymmetricChunk.UnpaddedFits | src/ua_securechannel.c:467-485 | without encryption a body is admitted if and only if its chunk fits |
| SymmetricChunk.DefaultBufferTooShort | src/ua_securechannel.c:467-485 | an admitted body whose chunk is longer than a buffer of 65535 bytes |
| SymmetricChunk.ChunkRoundTrip | src/ua_securechannel.c:807-882 | in every mode the receiver recovers body, request id and sequence number of a chunk with a non-empty body |
| SymmetricChunk.AcceptedIsAuthentic | src/ua_securechannel.c:856-866 | in the signing modes every accepted chunk ends in the code of all the plain text in front of it |
| SymmetricChunk.AcceptedIsInPlainText | src/ua_securechannel.c:868-881 | what is accepted stands in the plain text: sequence number, request id and body in this order |
| SymmetricChunk.ForgedStatus | src/ua_securechannel.c:853-866 | in mode Sign a chunk without a valid code fails the security checks |
| SymmetricChunk.UnsecuredChunk | src/ua_securechannel.c:868-881 | in mode none a chunk yields what stands behind its header, and the status of one that is too short |
| EndToEnd.HeaderOnTheWire | src/ua_securechannel.c:543-567 | type and kind as characters, size, channel id, token id, sequence number and request id at their places in every chunk sent |
| EndToEnd.BodyOnTheWire | src/ua_securechannel.c:513-541 | body, padding bytes that each state the padding size, and room for the signature, at their places |
| EndToEnd.SentIsAuthentic | src/ua_securechannel.c:569-589 | in the signing modes every chunk sent carries the code of everything in front of it |
| SymmetricChunk.SymmetricPayloadInBounds | src/ua_securechannel.c:807-882 | whatever arrives, an accepted payload is non-empty and lies inside the chunk; memory outside the chunk is read if and only if the chunk is encrypted, of whole blocks and not longer than the signature |
| EndToEnd.HeaderOnlyChunkReadsOutside | src/ua_securechannel.c:838 | a chunk of 16 bytes passes the connection and makes the receiver read outside it |
| ChunkSecurity.OpenSealed | src/ua_securechannel.c:807-882 | padding, signature and sequence header put on by a sender come off again, also when the plain text is shorter than the chunk |
| ChunkSecurity.AcceptedIsVerified | src/ua_securechannel.c:856-866 | whatever is accepted in a signing mode or as OPN has been verified |
| ChunkSecurity.OpensAsRead | src/ua_securechannel.c:836-882 | a receiver that reads a shorter padding than was written delivers padding behind the body, one that reads a longer one delivers less than the body or nothing |
| ChunkSecurity.OpnUndefinedIff | src/ua_securechannel.c:836-880 | an OPN chunk makes the code read outside it or wrap the payload length if and only if its plain text ends before the padding length, or is signed but too short for sequence header, padding and signature while the received chunk is long enough |
| ChunkSecurity.OpnPayloadLengthWraps | src/ua_securechannel.c:874-880 | a signed plain text shorter than the sequence header for which the payload length wraps |
| SecureChannel.UASecureChannel.MakeKeys | src/ua_securechannel.c:137-206 | the generated buffer is cut into the specified keys |
| SecureChannel.UASecureChannel.Revolve | src/ua_securechannel.c:232-242 | the whole new state is that of the token model; the next token is current and used up, and both key sets are derived in their direction |
| SecureChannel.UASecureChannel.CheckSym | src/ua_securechannel.c:939-949 | the whole new state and status are those of the token model |
| SecureChannel.UASecureChannel.CheckSequenceNumber | src/ua_securechannel.c:894-912 | accepts exactly the numbers of the sequence model and stores the accepted one, also over the wrap |
| SecureChannel.UASecureChannel.ProcessPayload | src/ua_securechannel.c:1060-1073 | on the linked chunk list, performs the reassembly step and calls the application exactly for final chunks |
| SecureChannel.UASecureChannel.Receive | src/ua_securechannel.c:951-1073 | the object's new state, the application's state and the status are those of the channel model for every chunk |
| Reception.ForgedRefused | src/ua_securechannel.c:856-866 | in the signing modes a chunk without a valid code changes neither application nor sequence number nor collected bytes |
| Reception.WrongNumberRefused | src/ua_securechannel.c:902-909 | nor does a chunk whose sequence number is out of order |
| Reception.RefusedRevolvesIff | src/ua_securechannel.c:939-949 | a forged or replayed chunk does change the tokens and keys exactly when it names the next token, since the token check revolves before the code and the number are checked; otherwise the whole channel stays as it was |
| Reception.HeaderOnlyChunkRevolves | src/ua_securechannel.c:939-949 | such a chunk in mode sign: a bare header that names the next token fails the security checks and yet makes that token the current one |
| Reception.ForeignChannelRefused | src/ua_securechannel.c:964-967 | a chunk for another channel is refused and changes nothing |
| Reception.UnknownTokenRefused | src/ua_securechannel.c:1006-1008 | a chunk with a token id that is neither current nor issued is refused and changes nothing |
| Reception.ShortChunkRefused | src/ua_securechannel.c:955-999 | a chunk that ends in its header is refused and changes nothing |
| Reception.OtherTypesRefused | src/ua_securechannel.c:1014-1037 | HEL, ACK and OPN chunks that are not final are refused on a channel |
| Reception.ErrReachesApplication | src/ua_securechannel.c:982-989 | a final ERR chunk reaches the application with everything behind the message header |
| Reception.TakenMeans | src/ua_securechannel.c:1010-1071 | a chunk that is taken carries an admissible sequence number, which is remembered, and goes to reassembly |
| Reception.RefusedMeans | src/ua_securechannel.c:951-1073 | any other chunk but an OPN leaves sequence number and collected bytes alone, and only an ERR reaches the application |
| Reception.NumbersFollowTheRule | src/ua_securechannel.c:894-912 | over any run of chunks, renewals and revolves without an OPN, the numbers of the chunks taken follow the acceptance rule |
| Reception.ReplayRefused | src/ua_securechannel.c:894-912 | over any such run a sequence number is not taken again before 4294965249 chunks have been taken |
| Reception.NotTakenChangesNothing | src/ua_securechannel.c:951-1073 | over any such run a chunk that is not taken leaves sequence number and collected bytes alone, and the application too unless it is an ERR |
| Reception.ReplacedTokenChunkRefused | src/ua_securechannel.c:939-949 | over any run of chunks, renewals and revolves a chunk with a replaced token id is refused, unless the id was issued again |
| MessageContext.Context.Begin | src/ua_securechannel.c:627-660 | refuses other message types; otherwise a fresh buffer with exactly the room that the signature and reserve leave |
| MessageContext.Context.SetBufPos | src/ua_securechannel.c:467-485 | the room left for the encoder is the capacity that the fit lemmas speak about |
| MessageContext.Context.WritePadding | src/ua_securechannel.c:513-541 | the loop writes exactly the self-describing padding behind the body, and leaves the buffer exactly when body and padding are longer than it |
| MessageContext.Context.SignAndCrypt | src/ua_securechannel.c:567-590 | the buffer holds the sealed chunk |
| MessageContext.Context.SendChunk | src/ua_securechannel.c:487-598 | the wire gets exactly the chunk that the round-trip lemma opens, with the next sequence number, or the limits refuse it; the buffer is overrun exactly when the chunk does not fit |
| EndToEnd.OneChunk | src/ua_securechannel.c:951-1073 | the receiver accepts the chunk of a sender in step and hands exactly its piece to reassembly |
| EndToEnd.PiecesArrive | src/ua_connection.c:147-176 | any interleaving of chunks of many messages in any packets arrives as its reassembly, with nothing failed or left over, also over the wrap of the sequence number |
| EndToEnd.MessagesArriveEndToEnd | src/ua_securechannel.c:487-598 | for all messages, splits and packet cuts, the application receives exactly the sent messages in order |
| Transfer.SendMessage | src/ua_securechannel.c:600-681 | begin, encoding callback and finish put exactly the chunks of the message on the wire, one buffer per chunk, if the message respects the limits of the peer |
| Transfer.SizeIsLength | src/ua_securechannel.c:496-511 | the size that is compared with the limit is the length of the message that the receiver puts together |
| Transfer.Endpoint.ReceivePacket | src/ua_connection.c:147-176 | the connection loop with the channel object as callback computes the outcome of the reference parse |
| Transfer.CarryMessages | src/ua_securechannel.c:689-720 | from channel object to connection and channel object: for all messages within the limits, all splits and packet cuts, and every receive buffer not smaller than the send buffer, the receiver logs exactly the messages in order, and nothing is left over |
| RsaBlocks.AsymRoundTrip | src/ua_securechannel.c:1077-1093 | blockwise decryption undoes blockwise encryption, and the encrypted length is the one the overhead function predicts |
| RsaBlocks.BlockAt | plugins/ua_securitypolicy_basic128rsa15.c:186-207 | block j of the cipher text is the encryption of block j of the data |
| RsaBlocks.EncryptInPlace | plugins/ua_securitypolicy_basic128rsa15.c:163-213 | whole blocks only; the window of the buffer becomes the cipher text and nothing else changes |
| RsaBlocks.DecryptInPlace | plugins/ua_securitypolicy_basic128rsa15.c:215-260 | whole blocks only; the plain text replaces the front of the window, a failing block leaves the buffer unchanged |
| RsaBlocks.DecryptLoop | plugins/ua_securitypolicy_basic256sha256.c:229-274 | the loop computes the concatenated plain texts or the first failure |
| OpenMessage.PaddingAsymCorrect | src/ua_securechannel.c:247-263 | the plain text of an OPN message is a whole number of RSA blocks, and its padding is readable with the sender's number of length bytes |
| OpenMessage.SizeWrittenIsSizeSent | src/ua_securechannel.c:364-382 | the size written before encryption is the length of the encrypted message |
| OpenMessage.OpnOpensIff | src/ua_securechannel.c:337-362 | the receiver recovers the body if and only if both keys are on the same side of 2048 bits, and in mode none if and only if the body is not empty |
| OpenMessage.OpnCorrupted | src/ua_securechannel.c:838-852 | with keys on different sides: a verified message is delivered with padding behind its body, or cut short or refused |
| OpenMessage.KeysOnDifferentSides | src/ua_securechannel.c:355-361 | two ends for which no body gets through |
| OpenMessage.OpnFitsIff | src/ua_securechannel.c:278-299 | every body that hideBytesAsym admits fits if and only if the blocks of the largest one do, computed from room and key |
| OpenMessage.OpnReserveTooShort | src/ua_securechannel.c:278-299 | an admitted body whose encrypted message is longer than the buffer |
| OpenMessage.OpnArrives | src/ua_securechannel.c:951-1073 | a whole OPN message passes the header checks and reaches the application behind whatever is pending under its request id; its sequence number is taken over |
| OpenMessage.ForeignOpnRefused | src/ua_securechannel.c:914-937 | an OPN message for another policy or another certificate is refused and changes nothing |
| OpenMessage.BodyArrivesIff | src/ua_securechannel.c:775-801 | processing the OPN chunk hands the application the body as sent if and only if nothing is pending under its request id |
| OpenMessage.OpnBehindPartialMessage | src/ua_securechannel.c:775-801 | an intermediate chunk and then an OPN with its request id: both are accepted, and the application gets the two as one OPN message |
| OpenMessage.OpnArrivesInPackets | src/ua_connection.c:147-176 | with the size that the sender writes, an OPN message arrives through the connection for every cut into packets |
| OpenMessage.BodyArrivesInPacketsIff | src/ua_connection.c:147-176 | for every cut into packets the application gets the body as sent if and only if nothing is pending under its request id |
| Calendar.SecsToTm | deps/libc_time.c:14-83 | accepts exactly the stated range; the fields are in range and denote exactly t seconds from the epoch in the proleptic Gregorian calendar, with weekday and day of year; the year field overflows exactly in the stated two months |
| Calendar.YearFieldOverflows | deps/libc_time.c:65-73 | the first accepted instant whose year field does not fit an int |
| Calendar.SplitMonths | deps/libc_time.c:62-63 | the month loop stays inside its table and finds month and day |
| Calendar.CyclesAreYears | deps/libc_time.c:37-60 | the cycle counters add up to whole March-based years and give the leap rule |
| Calendar.YearByYear | deps/libc_time.c:14-83 | the closed form of the reference calendar counts year by year |
| Calendar.DateIsUnique | deps/libc_time.c:14-83 | a day number denotes one date only, so the result is the only correct one |
| Pcg.Pcg32.Random | deps/pcg_basic.c:34-40 | the state moves by one congruential step, the stream selector stays, and the output is the rotation of the shifted and xor-ed old state |
| Pcg.XorShiftedFields | deps/pcg_basic.c:37 | the rotated word is bits 27 to 58 of the old state xor-ed with the bits 18 places above, and nothing else |
| Pcg.TopFiveBits | deps/pcg_basic.c:38 | the rotation count is the old state divided by 2^59 |
| Pcg.Pcg32.Seed | deps/pcg_basic.c:26-32 | seeding makes the increment odd for every sequence number |
| Pcg.Rotate | deps/pcg_basic.c:37-39 | the shift expression is a rotation for every count, zero included |
| Pcg.FullPeriod | deps/pcg_basic.c:34-36 | for every odd increment and every start the state returns after 2^64 draws and not before |
| Pcg.EveryStateReached | deps/pcg_basic.c:34-36 | from any state every one of the 2^64 states is reached |

## Left out

- Sockets, timeouts, transmit times, logging and the clock: input and output.
- mbedTLS, certificate parsing and certificate validation: replaced by the assumed functions above.
- Allocation failure other than of a new slot array, and the paths that only run after one (a failed copy of a node or of its id).
- Multithreading: the compare-and-swap in the nodestore always succeeds in the model because calls run one at a time.
- `UA_NodeMap_iterate` and `UA_NodeMap_delete`: the first releases the lock around a visitor that may re-enter the store, which the one-call-at-a-time model does not cover; the second only frees everything.
- Node classes and their attributes: a node is its id and an opaque rest; id comparison is equality of values.
- `UA_encodeBinary` and generated codecs: the encoder is any writer of body bytes between the two buffer positions (`Context.Encode`); header fields are little-endian numbers.
- How `UA_encodeBinary` cuts a message into bodies, and `UA_MessageContext_abort`: the split is any list of bodies; that every body is non-empty and fits is a hypothesis of the end-to-end theorem.
- Sending an OPN message step by step in its buffer: the message is built as a value (`BuildOpn`), so writing in place is not captured for it.
- OpenMessage.OpnOpensIff: mode none is covered for the policy without security only; with an RSA policy the receiver would decrypt bytes that were never encrypted, and the outcome depends on the cryptography.
- Calendar.SecsToTm: the year field is an unbounded integer; where it exceeds the C int range is stated instead of what the overflow would yield.
- Channel opening and renewal services, sessions and access control: they use the channel through the token events modelled in `Tokens`.
- Attaching a channel to a connection, blocking receive loops, error messages sent to the peer: plumbing.
- The other list kinds of `deps/queue.h`: not used by the modelled code.
