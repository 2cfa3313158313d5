# Verification models for a small WebSocket server

A Dafny model of the server's own protocol code and of the algorithms it rests on.  Each component
is modelled in the form the source gives it: classes with fields that methods update in place,
methods with loops over buffers, and functions where the source only computes.  Every method is
tied to a specification function, and the properties are proved of that function.

* **The endpoint and its codec.**  `ByteBuffers`, `Packets` and `Endpoints` are the objects of
  `src/ws_packet.cpp` and `src/ws_endpoint.cpp`.  `Frames` and `Handshake` say what one parse makes
  of a buffer, `Connection` is the endpoint as a state machine over the chunks it is given, with an
  append-only log for what goes to the write callback.  `WebSocketEndpoint.FromWire` is proved equal
  to one step of that machine, so everything proved of whole runs in `Connection`, `Chunking`,
  `Conformance`, `Echo` and `Fragmentation` holds of the object.
* **Requests.**  `Requests` is a grammar of request texts, spelled out byte by byte, with the verdict on
  every text of it; the response is a text of the same grammar and is read back by the same parser.
* **SHA-1.**  `Sha1Standard` is FIPS 180-3; `Sha1` is the streaming hasher, proved to refine it.
* **Base64.**  `Base64` holds section 4 of RFC 4648 on 24-bit groups and both loops of the source.
* **Text.**  `Text` is the tokenizer under the request parser.
* **Worked examples.**  `KnownAnswers` and `Sha1Sample` are the examples that the standards print:
  section 10 of RFC 4648 and sections 1.3 and 5.7 of RFC 6455, the hash through all its rounds.
* **Trees.**  `RbShape` to `RbForeach` are the red-black tree, `SplayShape` and `SplayTree` the splay
  tree of `include/uv/tree.h`, on heap nodes.  A ghost picture of the tree says what every pointer
  field must hold; each pointer assignment is proved against it.

## Where the code departs from its intent

The model follows the code.  For each departure there is a proof of when exactly it matters.

* A buffer cut inside a frame header can be taken for a whole frame (`src/ws_packet.cpp:97-118`):
  `Frames.DecodeAgrees` gives the exact condition for one buffer, `Chunking.SteadyExactly` for whole
  runs, `Chunking.NoCutInHeader` the cuts that are safe for every stream, `Conformance.RunAgrees` the
  runs that follow the standard, and `Chunking.CutHeaderMatters` is the concrete case of the bytes 81 80.
* The 64-bit length is read and dropped (`src/ws_packet.cpp:151-163`), and an empty unmasked frame
  at the end of the buffer throws (`src/ws_packet.cpp:408-411`): `Frames.PackDecode` and
  `Frames.DecodeAgrees` are equivalences that name both.
* The opcode keeps the reserved bits (`src/ws_packet.cpp:126`): `Frames.ReservedBits`.  A frame with
  one of them set gets no reply, since its opcode is then unknown: `Connection.ReservedUnknown`.
* Fragments and interleaved control frames are joined into one message under the last opcode
  (`src/ws_endpoint.cpp:154-164`), not as section 5.4 of RFC 6455 has it.  `Echo` states the code's
  rule; `Fragmentation.MessagesStandard` and `Fragmentation.EchoStandard` say exactly for which frames
  the messages, and what is written, are those of the standard, and `Fragmentation.FragmentedTextEcho`
  and `Fragmentation.InterleavedPing` are inputs on which they are not.
* The SHA-1 length field has 32 bits: `Sha1.PaddingAgrees` shows that the padding is the standard one
  exactly below 2^29 bytes, far above what a request can carry.
* During the handshake a buffer above the size limit is refused even if it starts with an acceptable
  request; `Chunking.TwoCalls` shows that this is the only way the limit makes the cut matter.
* When all lines of a request are blank, the end iterator is dereferenced
  (`src/ws_packet.cpp:301-308`): `Handshake.BrokenExactly`.
* `get_header_size` computes its result and does not return it; `Packets.WebSocketPacket.GetHeaderSize`
  returns it, and that value is what packing needs.

## Model

| member | source | states |
|---|---|---|
| RbTree.RedBlackTree.Insert | include/uv/tree.h:598-626 | for every valid tree and every node: the equal node already there, with tree and node unchanged, or null with the node in sorted place and all colour, black-height, root and parent-link invariants holding again |
| RbTree.RedBlackTree.InsertColour | include/uv/tree.h:407-449 | one red-red violation at any depth is removed; order and node set are kept; the loop ends |
| RbTree.RedBlackTree.RepairLeft | include/uv/tree.h:413-429 | one round below a left parent leaves at most one violation, strictly higher up, in all three cases |
| RbTree.RedBlackTree.RepairRight | include/uv/tree.h:430-446 | the mirror round |
| RbTree.RedBlackTree.RotateLeft | include/uv/tree.h:342-360 | the pointer writes turn the picture at any place of the tree, keep its node set and leave every other field consistent |
| RbTree.RedBlackTree.RotateRight | include/uv/tree.h:362-380 | the mirror rotation; whether the turned node was a left child is asked first, as in the source |
| RbTree.RedBlackTree.Remove | include/uv/tree.h:530-595 | for every valid tree and every node in it: the order sequence loses exactly that node and every red-black and link invariant holds again |
| RbTree.RedBlackTree.RemoveColour | include/uv/tree.h:451-528 | a subtree one black short, at any place, is made up for; the loop ends |
| RbTree.RedBlackTree.RestoreLeft | include/uv/tree.h:458-490 | one round with the short subtree on the left either finishes or moves the shortage up |
| RbTree.RedBlackTree.RestoreRight | include/uv/tree.h:491-524 | the mirror round |
| RbRemoval.SiblingExists | include/uv/tree.h:459-460 | the sibling of a short subtree is never null |
| RbTree.RedBlackTree.RemoveInner | include/uv/tree.h:539-578 | the successor takes over place, colour and links of a node with two children, whether or not it is its right child |
| RbTree.RedBlackTree.RemoveOuter | include/uv/tree.h:579-595 | a node with at most one child is spliced out |
| RbInsertion.LiftedRedAt | include/uv/tree.h:416-421 | recolouring below a red uncle moves the only violation two levels up |
| RbInsertion.StraightRedAt | include/uv/tree.h:422-427 | the first rotation turns a bent violation into a straight one |
| RbInsertion.SettledRedAt | include/uv/tree.h:428-429 | recolouring and rotating a straight violation keeps black counts and leaves none |
| RbRemoval.RedSiblingShortAt | include/uv/tree.h:460-464 | after the rotation below a red sibling the shortage is the same and the sibling black |
| RbRemoval.BlackNephewsShortAt | include/uv/tree.h:465-471 | reddening a sibling with black children moves the shortage up |
| RbRemoval.NearNephewShortAt | include/uv/tree.h:473-482 | the rotation of a red near nephew keeps the shortage and makes the far nephew red |
| RbRemoval.FarNephewRepairs | include/uv/tree.h:483-489 | the last rotation restores all black counts |
| RbRemoval.SuccessorGone | include/uv/tree.h:539-570 | replacing a node by its successor removes just that node from the order |
| RbColour.EqualBlackCounts | include/uv/tree.h:53-60 | all paths from the root to a leaf meet equally many black nodes |
| RbWalk.NodeInvariants | include/uv/tree.h:53-60 | in every valid tree, at every node: child and parent links agree, keys are ordered, a red node has a black parent |
| RbWalk.TreeHeightBound | include/uv/tree.h:61-62 | height h and n nodes satisfy 2^h <= (n+1)^2 for every tree that inserts and removes build |
| RbColour.HeightBound | include/uv/tree.h:61-62 | the same bound for every red-black picture |
| RbWalk.Find | include/uv/tree.h:629-644 | a node with the key if there is one, else null |
| RbWalk.NFind | include/uv/tree.h:647-666 | the first node at or above the key, else null |
| RbWalk.Next | include/uv/tree.h:668-687 | the next node in order, by parent links |
| RbWalk.Prev | include/uv/tree.h:690-709 | the previous node in order |
| RbWalk.MinMax | include/uv/tree.h:711-725 | the first or last node in order, null when empty |
| RbForeach.Foreach | include/uv/tree.h:738-741 | the iteration visits exactly the nodes of the tree, in order |
| RbForeach.ForeachReverse | include/uv/tree.h:753-756 | and backwards |
| RbForeach.RemoveEach | include/uv/tree.h:748-751 | removing each node visited empties the tree: the successor found before a removal is still the right one after it |
| SplayTree.SplayTree.Splay | include/uv/tree.h:209-242 | ends for every non-empty search tree and key, keeps the in-order node sequence, and leaves at the root the equal node or an immediate neighbour of the key |
| SplayTree.SplayTree.StepLeft | include/uv/tree.h:218-228 | one round to the left, with or without rotation, keeps order, chains and links and shrinks the tree still searched |
| SplayTree.SplayTree.StepRight | include/uv/tree.h:229-239 | the mirror round |
| SplayTree.SplayTree.RotateRight | include/uv/tree.h:88-92 | the rotation, with both chains untouched |
| SplayTree.SplayTree.RotateLeft | include/uv/tree.h:94-98 | the mirror rotation |
| SplayTree.SplayTree.LinkLeft | include/uv/tree.h:100-104 | the root and its right subtree go to the open end of the right chain, also when that is the scratch node |
| SplayTree.SplayTree.LinkRight | include/uv/tree.h:106-110 | the mirror link |
| SplayTree.SplayTree.Assemble | include/uv/tree.h:112-117 | the chains, closed by the root's subtrees, become its subtrees, also when one or both are empty |
| SplayShape.AssembledCells | include/uv/tree.h:112-117 | the fields of the assembled tree are those of the chains with their open ends and the root rewritten |
| SplayShape.AssembledOrder | include/uv/tree.h:112-117 | assembling keeps the order of all nodes |
| SplayShape.NearestFinds | include/uv/tree.h:209-242 | after a splay a node with the key is at the root, and no other node lies between the key and the root |
| SplayTree.SplayTree.SplayMinMax | include/uv/tree.h:247-278 | for both signs, order kept and the first or last node at the root |
| SplayTree.SplayTree.MinMax | include/uv/tree.h:153-158 | the first or last node, null when empty |
| SplayTree.SplayTree.Find | include/uv/tree.h:128-137 | non-null exactly for a key in the set, and then a node with that key |
| SplayTree.SplayTree.Next | include/uv/tree.h:139-151 | the node after the given one in order, or null |
| SplayTree.SplayTree.Foreach | include/uv/tree.h:292-295 | the iteration visits exactly the nodes of the set, in order, while every step reshapes the tree |
| SplayTree.SplayTree.Insert | include/uv/tree.h:164-186 | the key set gains the key; the equal node there was, or null with the node in sorted place |
| SplayTree.SplayTree.Remove | include/uv/tree.h:188-207 | the key set loses the key; the order loses exactly one node with it, or nothing |
| SplayTree.SplayTree.RemoveRoot | include/uv/tree.h:195-205 | the root is the one node gone, with and without left subtree |
| SplayShape.LastAtRoot | include/uv/tree.h:199-202 | the second splay leaves an empty right child before the old right subtree is hung on |
| SplayShape.SortedUnique | include/uv/tree.h:38-40 | two valid trees of the same nodes list them in the same order, whatever their shapes |
| Sha1.RoundFunctionIsF | src/sha1_portable.cpp:64-74 | the OR forms of Ch and Maj are the functions of section 4.1.1 of FIPS 180-3 in all rounds |
| Sha1Standard.KRoots | src/sha1_portable.cpp:80-90 | the round constants are the integer parts of 2^30 times the square roots of 2, 3, 5 and 10, in rounds 0 to 19, 20 to 39, 40 to 59 and 60 to 79 |
| Sha1Standard.RotlOne | src/sha1_portable.cpp:76-78 | rotating by one bit is doubling, with the highest bit carried to the lowest |
| Sha1Standard.RotlFive | src/sha1_portable.cpp:76-78 | rotating by five bits is multiplying by 32, with the five highest bits carried to the lowest |
| Sha1.InitialBytes | src/sha1_portable.cpp:109-113 | the initial hash words, spelled in bytes |
| Sha1Sample.SampleDigest | src/sha1_portable.cpp:101-211 | the digest that RFC 6455 prints for its sample key and the GUID, through every round of both blocks; any other constant, rotation or byte order would miss it |
| Sha1.SwappedLoad | src/sha1_portable.cpp:92-97 | a word of memory, swapped on a little-endian host, is the big-endian word of its bytes |
| Sha1.SwappedStore | src/sha1_portable.cpp:92-97 | a swapped word is stored as its big-endian bytes |
| Sha1.ScheduleAt | src/sha1_portable.cpp:164-169 | the recurrence that the in-place loop follows gives the message schedule of section 6.1.2 |
| Sha1.PutBlockByte | src/sha1_portable.cpp:55-58 | writing a byte of M changes just that byte of the words it shares its memory with |
| Sha1.SecureHashAlgorithm.MakeSchedule | src/sha1_portable.cpp:157-169 | in the memory that W and M share, the block is turned in place into its whole schedule |
| Sha1.SecureHashAlgorithm.RunRounds | src/sha1_portable.cpp:178-186 | the eighty in-place rounds are those of section 6.1.2 |
| Sha1.SecureHashAlgorithm.Process | src/sha1_portable.cpp:154-195 | H becomes the compression of H with the block, and the cursor zero |
| Sha1.SecureHashAlgorithm.Update | src/sha1_portable.cpp:124-132 | after any calls the fields are determined by all bytes absorbed: H is the fold over whole blocks, the cursor their number mod 64, M starts with the rest, l counts bits |
| Sha1.SameState | src/sha1_portable.cpp:124-132 | hashers that absorbed the same bytes in different portions agree on hash words, cursor, block prefix and counter |
| Sha1.BitCountWraps | src/sha1_portable.cpp:124-132 | the bit counter is 8 times the bytes, mod 2^32 |
| Sha1.PaddedFrom | src/sha1_portable.cpp:134-152 | which blocks the padded message has, in the one- and the two-block case |
| Sha1.SecureHashAlgorithm.Pad | src/sha1_portable.cpp:134-152 | one or two blocks are completed so that the bytes hashed are the padded message |
| Sha1.SecureHashAlgorithm.Final | src/sha1_portable.cpp:116-122 | the digest is that of all bytes absorbed, with the code's padding |
| Sha1.SHA1HashBytes | src/sha1_portable.cpp:204-211 | below 2^29 bytes the result is the FIPS 180-3 hash |
| Sha1.PaddingAgrees | src/sha1_portable.cpp:134-152 | the code's padding is that of section 5.1.1 exactly below 2^29 bytes |
| Base64.Base64encode | src/base64.cpp:179-209 | writes the RFC 4648 encoding and a NUL, touches nothing behind it, and returns exactly Base64encode_len |
| Base64.CodeEncodes | src/base64.cpp:185-205 | the shifts and masks of the main loop and of both tails pick the sextets of the group |
| Base64.Base64decode | src/base64.cpp:126-169 | writes the decoding of the longest prefix in the alphabet and a NUL, touches nothing behind it, and returns the number of data bytes, also with a dangling character |
| Base64.CodeDecodes | src/base64.cpp:140-164 | the shifts of the main loop and of the short last groups yield the bytes of the group; a single character yields none |
| Base64.Base64decode_len | src/base64.cpp:111-124 | room for all decoded bytes and a NUL |
| Base64.RoundTrip | src/base64.cpp:126-209 | for every byte string, decoding its encoding gives it back, whatever follows |
| Base64.EncodedDecodes | src/base64.cpp:126-209 | the same through the NUL that the encoder writes |
| Base64.EncodeNoZero | src/base64.cpp:171-209 | the encoding has no NUL of its own, so it survives as a C string |
| Base64.SymbolSixBits | src/base64.cpp:90-109 | the decoding table undoes the alphabet |
| Base64.Alphabet | src/base64.cpp:171-172 | 0 to 25, 26 to 51 and 52 to 61 are A to Z, a to z and 0 to 9, then + and /; the padding is = |
| Base64.OnlyAlphabet | src/base64.cpp:90-109 | the decoding table knows no character that the alphabet does not give back |
| Base64.DecodeLengthIs | src/base64.cpp:111-124 | the length is that of the alphabet prefix in groups of three bytes for four characters, rounded up, with a NUL |
| KnownAnswers.Vectors | src/base64.cpp:179-209 | the vectors of section 10 of RFC 4648 up to three bytes |
| KnownAnswers.LongVectors | src/base64.cpp:179-209 | and those of four to six bytes |
| Text.SplitStr | src/string_helper.inl:8-45 | on every input on which it ends, also without a delimiter, it appends the pieces between delimiters, without an empty last one, and returns their number |
| Text.PiecesJoin | src/string_helper.inl:8-45 | joining the pieces gives the text back, up to one trailing delimiter |
| Text.PiecesClean | src/string_helper.inl:8-45 | no piece contains the delimiter |
| Text.SplitJoin | src/string_helper.inl:8-45 | splitting undoes joining |
| Text.FindFirst | src/string_helper.inl:28-28 | the search result is the first occurrence, and -1 means none |
| Text.TrimTrims | src/string_helper.cpp:5-20 | no space is left at either end, and a second trim changes nothing |
| Text.TrimPadded | src/string_helper.cpp:5-20 | a text without spaces at its ends, with any number of spaces put before and behind it, is trimmed back to itself |
| Frames.DecodeAgrees | src/ws_packet.cpp:97-197 | the code decides as sections 5.2 and 5.3 of RFC 6455 exactly on buffers that meet a stated condition, whatever an uninitialised key holds |
| Frames.DecisionStable | src/ws_packet.cpp:97-118 | a frame taken with its header whole is not changed by further bytes |
| Frames.DecisionEarlier | src/ws_packet.cpp:97-118 | a frame is taken as well from fewer bytes that still hold it, unless it is empty, unmasked and last |
| Frames.PartWaits | src/ws_packet.cpp:104-110 | a whole header without the whole frame is never enough |
| Frames.ReferenceStable | src/ws_packet.h:153-159 | the reference, too, never changes its mind about a frame |
| Frames.SameSizeSameFrame | src/ws_packet.cpp:97-197 | code and reference can differ on a frame both take only in its size |
| Frames.PackReference | src/ws_packet.cpp:199-280 | every packed frame is read back by the reference with all fields and the exact payload, whatever follows; its size is header size plus payload |
| Frames.PackDecode | src/ws_packet.cpp:97-280 | the code reads back what it packed exactly for payloads up to 65535 bytes that are not an empty unmasked frame at the end of the buffer |
| Frames.UnmaskTwice | src/ws_packet.cpp:184-189 | masking is its own inverse |
| Frames.ReservedBits | src/ws_packet.cpp:126-126 | the seven bits kept are the opcode exactly when the reserved bits are zero |
| Bytes.ValueIsNumber | src/ws_packet.cpp:131-149 | the number that lengths are made of is the byte itself |
| Bytes.ToByteIsNumber | src/ws_packet.cpp:216-251 | the byte written for a number below 256 is that number |
| Frames.ByteNumbers | src/ws_packet.cpp:125-131 | the header fields as numbers: FIN and mask are the highest bits, the opcode and the length the rest |
| Frames.HeaderNumbers | src/ws_packet.cpp:120-177 | a whole header has 2, 4 or 10 bytes by its length 0 to 125, 126 or 127, and four more with the mask bit |
| Frames.PackedSize | src/ws_packet.cpp:350-386 | a packed frame has 2 header bytes below 126, 4 up to 65535 and 10 above, four more if masked, and its payload |
| Frames.SevenBitsNumber | src/ws_packet.cpp:201-207 | below FIN, the first byte packed is 64, 32 and 16 for the reserved bits, plus the opcode |
| KnownAnswers.MaskedHello | src/ws_packet.cpp:97-197 | the masked text frame of section 5.7 of RFC 6455 is read as FIN, text, Hello |
| KnownAnswers.UnmaskedHello | src/ws_packet.cpp:199-280 | a text message Hello is answered by the bytes of that section |
| KnownAnswers.Binary256 | src/ws_packet.cpp:199-280 | 256 binary bytes are answered behind 82 7e 01 00 |
| KnownAnswers.Binary64K | src/ws_packet.cpp:120-177 | for the 65536 bytes of that section the reference takes the whole frame and the code an empty one of 10 bytes |
| Connection.ReservedUnknown | src/ws_endpoint.cpp:175-210 | with a reserved bit set the seven bits are no known opcode |
| ByteBuffers.IntBounds | src/ws_packet.cpp:401-406 | the conversions are those of a 32-bit `int` and its unsigned partner |
| ByteBuffers.EnoughMeans | src/ws_packet.cpp:401-406 | the unsigned comparison means what it says for all sizes, negative ones too, exactly as long as the offset has not passed the end |
| ByteBuffers.ByteBuffer.ReadBytesX | src/ws_packet.cpp:431-443 | for every size and offset: false, the next bytes with a moved offset, or the exception of at; false exactly for a size that is negative or too large while the offset is in the data |
| ByteBuffers.ByteBuffer.SkipX | src/ws_packet.cpp:418-429 | for every size and offset, a moved offset or nothing, by the same rule |
| ByteBuffers.ByteBuffer.Erase | src/ws_packet.cpp:462-476 | the first bytes are gone, the offset is not moved |
| ByteBuffers.ByteBuffer.Append | src/ws_packet.cpp:478-483 | the bytes are added at the end |
| Packets.WebSocketPacket.FetchFrameInfo | src/ws_packet.cpp:120-177 | on any packet, fresh or used, after reads that may each fail, fields and offset are those of the header function |
| Packets.WebSocketPacket.FetchPayload | src/ws_packet.cpp:179-197 | the unmasked payload is added to what the packet holds and the offset is behind it, or the exception is thrown exactly where curat throws |
| Packets.WebSocketPacket.RecvDataframe | src/ws_packet.cpp:97-118 | on any packet, result, offset, fields and payload are those of the decision; the buffer is intact, and the offset zero when more bytes are needed |
| Packets.WebSocketPacket.PackDataframe | src/ws_packet.cpp:199-280 | for every declared length and read offset the output gains what the loops write; with the payload's length, still unread if masked, that is exactly the packed frame, in all three length forms |
| Packets.MaskedWhole | src/ws_packet.cpp:258-271 | the byte-by-byte loop, which masks the last byte again when a read fails, masks a whole payload as section 5.3 says |
| Packets.DigitShifted | src/ws_packet.cpp:235-251 | the shifts by multiples of eight bits are the big-endian digits of the length |
| Packets.WebSocketPacket.GetHeaderSize | src/ws_packet.cpp:366-386 | the intended result is the size of the packed header: packed frame less payload |
| Packets.WebSocketPacket.SetPayload | src/ws_packet.cpp:344-348 | payload appended and its length kept beside it |
| Packets.WebSocketPacket.FetchHsElement | src/ws_packet.cpp:282-342 | on any packet, the loops with in-place trimming leave the tokens and the last-wins header map of the request function |
| Packets.WebSocketPacket.RecvHandshake | src/ws_packet.cpp:45-71 | on any packet, length and offset are those of the verdict, and the status is 0, 1024000 for a buffer above that size, or 10070 for any other refusal |
| Packets.WebSocketPacket.PackHandshakeRsp | src/ws_packet.cpp:73-95 | the response text, with SHA-1 and base64 done by their methods and the accept value read as a C string |
| Handshake.FetchStable | src/ws_packet.cpp:282-342 | once the terminator is there, further bytes change nothing |
| Requests.PrintFetch | src/ws_packet.cpp:282-342 | every text of the grammar, with blank lines, any spaces around the line, names and values, lines without a field, further tokens, and anything behind it, is read back: length, first three tokens and fields; with fewer tokens or no second line it is unfinished |
| Requests.HeaderRead | src/ws_packet.cpp:317-338 | one header line adds its field, with any spaces around name and value, or nothing if colon, name or value is missing |
| Requests.FieldMapLast | src/ws_packet.cpp:337-337 | a name has a value in the map exactly if the last line of that name has it |
| Requests.PrintedJudged | src/ws_packet.cpp:45-71 | in literal bytes: a complete request that fits is accepted exactly if the last fields say Upgrade: websocket, Connection: Upgrade, Sec-WebSocket-Version: 13 and some Sec-WebSocket-Key, refused if one of them is missing or different, and an incomplete one waited for |
| Requests.SizeLimit | src/ws_packet.cpp:47-50 | more than 1024000 bytes are refused, and a buffer up to that is judged by what it says |
| Requests.ResponseRead | src/ws_packet.cpp:82-92 | read back by the same parser, the response says HTTP/1.1 101, Connection: upgrade, Upgrade: websocket, the accept value of the request's key, and a protocol exactly if the request has one |
| Handshake.AcceptedStable | src/ws_packet.cpp:45-71 | an acceptance is not changed by further bytes within the limit |
| Handshake.AcceptedAlone | src/ws_packet.cpp:45-71 | the accepted bytes alone are accepted as they were |
| Handshake.JudgedEarlier | src/ws_packet.cpp:45-71 | a request cut short is waited for, or judged as the whole buffer is |
| Handshake.RefusedStable | src/ws_packet.cpp:45-71 | a refusal is final, at the limit or by the fields |
| Handshake.BrokenExactly | src/ws_packet.cpp:293-308 | the end iterator is dereferenced exactly for a complete request within the limit that has two lines or more, all blank |
| Handshake.ValuesShort | src/ws_packet.cpp:317-338 | no header value of an accepted request is longer than the request |
| Handshake.AcceptedValueStandard | src/ws_packet.cpp:75-80 | for the key of every accepted request, the accept value is base64 of the standard SHA-1 of key and GUID |
| KnownAnswers.SampleAccepted | src/ws_packet.cpp:75-80 | the sample key of section 1.3 of RFC 6455 has the accept value printed there |
| Connection.Parse | src/ws_endpoint.cpp:111-170 | every continuing step takes a positive number of bytes off the front of the buffer, and the connection is open after it |
| Connection.Conservation | src/ws_endpoint.cpp:60-97 | over any run, bytes received are the bytes taken, request then frames in order, followed by the bytes unread |
| Connection.HandshakeSafety | src/ws_endpoint.cpp:60-137 | over any run: nothing written or taken before acceptance, the response first and replies after it, and the completed flag never reverts |
| Connection.ReplyNotResponse | src/ws_endpoint.cpp:130-132 | no reply is a response, so the response is written exactly once |
| Connection.RefusalFinal | src/ws_endpoint.cpp:86-92 | after a call has returned -1 every later call returns -1, and nothing is ever written |
| Connection.RefusedIs | src/ws_endpoint.cpp:117-121 | -1 is returned exactly for a refused request before acceptance |
| Connection.ResultIs | src/ws_endpoint.cpp:60-97 | from what a call leaves: it throws exactly if the state is dead after it, else it returns -1 for a refused request before acceptance, the length of the last packet if one was taken and nothing is unread, and 0 otherwise |
| Chunking.SteadyExactly | src/ws_endpoint.cpp:60-97 | a call can be continued by any further bytes as if there had been one call exactly when no access failed and no frame was taken before its header was whole |
| Chunking.TwoCalls | src/ws_endpoint.cpp:60-97 | two calls do what one does exactly when the handshake size limit does not come in between |
| Chunking.ChunkIndependence | src/ws_endpoint.cpp:60-97 | two ways of cutting the same stream, of any length, whose calls but the last are steady give the same flag, unread bytes, partial message, packets and log |
| Chunking.AsOneCall | src/ws_endpoint.cpp:60-97 | calls of which all but the last are steady are one call on the whole stream; the last may end anywhere, also in a failing access |
| Chunking.NoCutInHeader | src/ws_endpoint.cpp:60-97 | for every byte stream of any length, calls between which no cut falls inside a frame header, right behind an empty unmasked frame or inside a packet that fails do what one call does |
| Chunking.AnyCleanCuts | src/ws_endpoint.cpp:60-97 | any two such ways of cutting a stream lead to the same state |
| Chunking.CleanCutSteady | src/ws_endpoint.cpp:60-97 | up to such a cut no access fails and no frame is taken before its header is whole |
| Conformance.RunAgrees | src/ws_endpoint.cpp:139-170 | an open connection takes the frames of section 5.2 of RFC 6455 and writes what they call for exactly on runs whose buffers meet the condition of `Frames.DecodeAgrees` |
| Chunking.CutHeaderMatters | src/ws_packet.cpp:104-117 | a masked frame cut after the bytes 81 80 ends differently from the same bytes in one call |
| Chunking.PrematureSize | src/ws_packet.cpp:120-177 | a frame taken before its header is whole is shorter than the frame it would have been |
| Echo.EchoOfRun | src/ws_endpoint.cpp:139-235 | however readable frames are cut into calls, not inside a header, exactly the messages they complete are answered and nothing is left unread |
| Echo.EchoTrace | src/ws_endpoint.cpp:139-170 | any sequence of readable frames at the front of the buffer is taken frame by frame, with whatever follows |
| Echo.MessagesKeepBytes | src/ws_endpoint.cpp:154-164 | every payload byte is in exactly one message or still pending, in order |
| Echo.MessagesAppend | src/ws_endpoint.cpp:154-164 | later messages depend on earlier frames only through what is pending |
| Echo.OneMessage | src/ws_endpoint.cpp:154-164 | frames without FIN and one with it make one message: all their payloads, under the last opcode |
| Echo.RepliesCarry | src/ws_endpoint.cpp:172-235 | one entry per message with a known opcode, in order, each read by the reference as FIN, unmasked, that opcode and exactly that message |
| Echo.OneFrameAnswer | src/ws_endpoint.cpp:172-235 | a message in one frame is answered by one entry, read as FIN, its opcode and its payload, exactly for the opcodes 0, 1, 2, 8, 9 and 10, and by nothing for the others |
| Fragmentation.MessagesStandard | src/ws_endpoint.cpp:154-164 | from any state of a message, the code's messages are those of section 5.4 of RFC 6455 exactly when no message ends with a continuation frame and nothing is pending before a control frame |
| Fragmentation.EchoStandard | src/ws_endpoint.cpp:154-235 | and exactly then what is written is what that section calls for |
| Fragmentation.RepliesTold | src/ws_endpoint.cpp:172-235 | different messages with known opcodes are written differently |
| Fragmentation.FragmentedTextEcho | src/ws_endpoint.cpp:154-235 | a text in two fragments is answered under the opcode 0 |
| Fragmentation.InterleavedPing | src/ws_endpoint.cpp:154-164 | a ping between two fragments is answered with the first fragment in front of its payload |
| Echo.Session | src/ws_endpoint.cpp:60-170 | an acceptable request and readable frames, cut anywhere in the request and outside frame headers, give the response, then the replies, then nothing unread |
| Echo.PrintedRequest | src/ws_packet.cpp:45-71 | every complete request of the grammar that says what a handshake has to is acceptable, whatever follows it and whatever limit it fits in |
| Endpoints.WebSocketEndpoint.FromWire | src/ws_endpoint.cpp:60-97 | the object's state after a call, and the value returned, are those of the state machine |
| Endpoints.SmallRunCounts | src/ws_endpoint.cpp:60-97 | unread bytes and message that an `int` counts together keep every buffer of the run within an `int` |
| Endpoints.WebSocketEndpoint.ParsePacket | src/ws_endpoint.cpp:111-170 | one call carries out one step of the machine, before the bytes are erased |
| Endpoints.WebSocketEndpoint.ProcessMessageData | src/ws_endpoint.cpp:172-213 | the log gains the reply for a known opcode and nothing for another |
| Endpoints.WebSocketEndpoint.UserDefinedProcess | src/ws_endpoint.cpp:217-235 | the log gains one unmasked FIN frame with the opcode and the whole message |

## Left out

- `src/main.cpp`, libuv and all of `include/uv` but `tree.h`: I/O callbacks, sockets, threads and declarations.
- Console tracing, `valueOf` and the typed parameter accessors: stream conversions.
- A missing write callback or work data (`src/ws_endpoint.cpp:46-53`, `src/ws_endpoint.cpp:102-105`): the callback is taken as set, and what it is given is the log.
- Exceptions of `at` and the dereferenced end iterator end the run: the state after one is marked and no later call is modelled.
- Undefined constructs that every run meets are ignored, with the effect compilers give them: `user_defined_process` ends without its return statement (`src/ws_endpoint.cpp:217-235`), the packet constructor writes one byte past `masking_key_` (`src/ws_packet.cpp:41`), and `array[0] << 56` shifts an `int` too far (`src/ws_packet.cpp:157`), into a variable nothing reads.
- `hs_length_` before its first assignment is taken as zero, which the test at `src/ws_endpoint.cpp:123` needs.
- An uninitialised masking key is one arbitrary constant for all packets of an endpoint; it only shows when a header was cut.
- Endpoints.WebSocketEndpoint.UserDefinedProcess: its missing return value, which no caller uses.
- Endpoints.WebSocketEndpoint.FromWire: a run in which a buffer or message grows beyond what an `int` can count is excluded, as the conversions to `int` all over the source assume; `Endpoints.SmallRunCounts` says when that cannot happen.
- Packets.WebSocketPacket.RecvDataframe: a declared length so near 2^64 that adding the header size wraps, and a buffer whose offset is not at its start.
- RbTree.RedBlackTree.Remove: `RB_AUGMENT` is empty, as it is by default, and keys are integers under the usual order; nodes of equal key are never both in a tree.
- SplayTree.SplayTree.SplayMinMax: the argument 0, for which the loop of the source never ends.
- SplayTree.SplayTree.Splay: amortised cost.
- Text.SplitStr: an empty delimiter in front of text, for which the loop of the source never ends.
- Cryptographic strength of SHA-1.
