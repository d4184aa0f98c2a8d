# Verified model of the Sambam SMB2/3 server

This project models the parts of Sambam (an SMB2/3 server written in Go) whose
correctness reaches beyond one function body, and proves that they do what the
server, the protocol documents and the cited standards need them to do. Block
ciphers, hash functions, key derivation, RC4, the operating system's directory
read and random draws are parameters: every result holds for all of them.

Code that updates state in place is modelled by classes and methods over arrays
and fields, each proved against a specification function; the lemmas about those
functions carry the results. Interleaved code (the open-file protocol, the request
hand-off) is a state machine over schedules of atomic steps.

| files | subject |
|---|---|
| `Bytes`, `Slices`, `Wrappers`, `Utf16` | octets, integer layouts, byte slices, UTF-16LE strings |
| `BlockModes`, `CcmSpec`, `CcmImpl`, `Cmac` | CBC chains, counter mode, CCM (NIST SP 800-38C), CMAC (NIST SP 800-38B) |
| `Ntlm`, `NtlmServer`, `NtlmClient`, `NtlmHandshake` | the NTLM version 2 handshake between both sides |
| `FileHandle`, `DirCursor` | closing a file under concurrent I/O; paged directory listing |
| `Packet`, `Compound`, `CompoundSend`, `Transform` | headers, signatures, compound frames, SMB3 encryption |
| `HandOff`, `ConnSpec`, `ConnLaws`, `Connection`, `TreeTables` | one connection: request hand-off, sessions, hashes, mounts |
| `SecurityDescriptor`, `Listings`, `ShareEnum` | printers and parsers: security descriptors, linked lists, share enumeration |

Where the code does not do what its documentation or callers expect, the model
keeps the code, names an input and proves exactly when the expectation holds:

- CCM's associated-data length prefix conforms to section A.2.2 of SP 800-38C
  exactly outside two bands of lengths (`CcmSpec.ConformsToStandardIff`, first
  deviating length in `CcmSpec.ShortFormEndsEarly`).
- The slice returned by `Seal` extends `dst` exactly when `dst` is empty
  (`CcmImpl.ReturnedSliceIsExtensionIff`), and sealing a payload in place
  authenticates the ciphertext (`CcmImpl.InPlaceSealOpensIff`, with a failing input
  in `CcmImpl.InPlaceSealFailure`); for all inputs, the result opens again exactly
  when Seal does not work in place (`CcmImpl.SealOpensIff`).
- The NTLM challenge writes the target information over the target name, so a
  client reads the true name exactly when it is empty
  (`NtlmHandshake.TargetNameReadsBackIff`, for names not ending in NUL; a concrete
  name in `NtlmHandshake.TargetNameLost`). The handshake still agrees.
- An operating system error during a directory read loses the buffered entries,
  exactly when there are any and the scan does not restart (`DirCursor.OpenDir.Query`;
  a client that never sees an entry in `DirCursor.FailureLosesEntry`).
- A query for everything answers without an entry although more are left exactly when
  no entry of the next read has readable attributes (`DirCursor.OpenDir.QueryAll`; a
  directory in `DirCursor.UnreadableEntriesStall`).
- The request hand-off misses a request in some schedule exactly when two
  neighbouring requests carry the same message id (`HandOff.NeverMissesIff`, the
  schedule in `HandOff.EqualNeighboursLoseOne`).
- The receiver has no compound context for the last packet of a frame exactly when
  every packet of the frame is marked related (`Compound.ContextMissingIff`, a frame
  in `Compound.LoneRelatedPacket`).
- Signing does not clear the signature field first, so a signed packet verifies
  under every MAC exactly when the field was zero before (`Packet.SignedVerifiesIff`, a
  packet in `Packet.StaleSignatureFails`); the server's own encoder always leaves the
  field zero.
- A compound frame is signed as one packet and verified packet by packet: its first
  packet verifies under every MAC exactly when the frame is a single packet
  (`CompoundSend.FirstSegmentVerifiesIff`, with the MAC that tells otherwise).
- A session of a guest or of SMB 2.x has no decrypter (`ConnLaws.NoDecrypterIff`), and
  the frames that ask for it anyway are characterised in `Transform.MissingKeyIff` (one
  such frame in `Transform.FrameForKeylessSession`).
- A drawn tree id that is in use makes the two tables disagree
  (`TreeTables.RunIsSoundIff`, a run in `TreeTables.ClashingDraws`).
- A share name survives enumeration exactly when it is ASCII, because its length is
  counted in UTF-8 bytes (`ShareEnum.ShareListRoundTripIff`, a failing name in
  `ShareEnum.AccentedNameGrows`).
- Decoding a UTF-16 string loses one final NUL (`Utf16.DecodeEncode`,
  `Utf16.LoneNulIsLost`).


## Model

| member | source | states |
|---|---|---|
| `BlockModes.AbsorbThenPad` | smb/internal/crypto/ccm/cbc_mac.go:28-50 | Writing a message into the lazily encrypting chain and padding it computes textbook CBC over the zero-padded message, for every message and every block function. |
| `BlockModes.AbsorbConcat` | smb/internal/crypto/ccm/cbc_mac.go:28-38 | The chain does not see how a message is cut into writes. |
| `CcmImpl.Mac.Reset` | smb/internal/crypto/ccm/cbc_mac.go:21-26 | Resetting gives the chain of the empty message. |
| `CcmImpl.Mac.Write` | smb/internal/crypto/ccm/cbc_mac.go:28-38 | The byte-by-byte loop, which encrypts a full block only when the next byte arrives, absorbs exactly the given bytes into the chain. |
| `CcmImpl.Mac.PadZero` | smb/internal/crypto/ccm/cbc_mac.go:41-46 | Encrypts a partial or full pending block, and does nothing at a block boundary that is already encrypted. |
| `CcmImpl.Mac.Sum` | smb/internal/crypto/ccm/cbc_mac.go:48-50 | Returns the chaining block and leaves the state alone. |
| `CcmImpl.MaxUvarintIsLimit` | smb/internal/crypto/ccm/ccm.go:174-176 | The bound the code computes for n length bytes is 256^n - 1 up to 8 bytes, so the payload test is exact. |
| `CcmImpl.PutUvarint` | smb/internal/crypto/ccm/ccm.go:179-183 | The loop writes the n-byte big-endian form of the number and nothing else. |
| `CcmImpl.Ccm.MakeFirstBlock` | smb/internal/crypto/ccm/ccm.go:133-145 | Or-ing the tag and data bits into the counter block and overwriting the counter gives the block B_0 of section A.2.1 of SP 800-38C. |
| `CcmImpl.Ccm.PutLengthPrefix` | smb/internal/crypto/ccm/ccm.go:145-158 | The front of the reused block becomes the associated-data length prefix with the thresholds of the code. |
| `CcmImpl.Ccm.GetTag` | smb/internal/crypto/ccm/ccm.go:133-172 | The sequence of writes and pads over the twice-overwritten counter block returns CBC over the formatted string of section A.2. |
| `CcmImpl.Ccm.Seal` | smb/internal/crypto/ccm/ccm.go:57-89 | What is written behind dst is the encrypted payload and masked tag, in place or in a new array by capacity, for a payload anywhere that does not partly overlap the written bytes; nothing else changes; it fails exactly when the payload exceeds the limit. |
| `CcmImpl.Ccm.Open` | smb/internal/crypto/ccm/ccm.go:91-129 | Succeeds exactly when the length is within the limit and the specification opens the ciphertext, and then yields dst followed by that payload, even when it decrypts onto the ciphertext itself. |
| `CcmImpl.WrittenIsSealed` | smb/internal/crypto/ccm/ccm.go:57-89 | Out of place, the bytes written by Seal are the encryption of section 6.1 of SP 800-38C, up to the tag size. |
| `CcmImpl.ReturnedSliceIsExtensionIff` | smb/internal/crypto/ccm/ccm.go:82-88 | The slice Seal returns is dst extended by the sealed payload if and only if dst is empty. |
| `CcmImpl.InPlaceSealOpensIff` | smb/internal/crypto/ccm/ccm.go:66-88 | When the payload is encrypted in place the code authenticates the ciphertext; the result opens again if and only if ciphertext and payload have equal truncated tags. |
| `CcmImpl.SealOpensIff` | smb/internal/crypto/ccm/ccm.go:66-88 | The condition a caller can check: for all ciphers, nonces, data and payloads the result opens again if and only if Seal does not work in place. |
| `CcmImpl.InPlaceSealFailure` | smb/internal/crypto/ccm/ccm.go:66-88 | A concrete payload and block function for which sealing in place cannot be opened. |
| `CcmSpec.OpenedIffSealed` | smb/internal/crypto/ccm/ccm.go:57-131 | Opening accepts a string as payload x exactly when the string is the sealing of x, for every block function, nonce, tag size and associated data. |
| `CcmSpec.ParseInvertsFormat` | smb/internal/crypto/ccm/ccm.go:133-172 | The authenticated string determines nonce, associated data and payload, whatever follows it (first obligation of section 5.4 of SP 800-38C). |
| `CcmSpec.DistinctInputsDivergeInCommonBlock` | smb/internal/crypto/ccm/ccm.go:133-172 | Two different inputs under one nonce differ in a block index that both formattings have (second obligation). |
| `CcmSpec.FirstBlockIsNoCounterBlock` | smb/internal/crypto/ccm/ccm.go:104-145 | B_0 of any message differs from every counter block of any message (third obligation). |
| `CcmSpec.CounterStaysInField` | smb/internal/crypto/ccm/ccm.go:64-84 | Within the payload limit the 128-bit increment never carries into the nonce: the running counter is the counter block of section A.3. |
| `CcmSpec.CounterModeIsPayloadStream` | smb/internal/crypto/ccm/ccm.go:64-84 | The key stream of the generic counter mode started at Ctr_1 is the stream S_1 S_2 ... of section 6.1. |
| `CcmSpec.ConformsToStandardIff` | smb/internal/crypto/ccm/ccm.go:145-158 | The authenticated string is the one of section A.2 if and only if the data length lies outside the two bands where the thresholds differ. |
| `CcmSpec.ShortFormEndsEarly` | smb/internal/crypto/ccm/ccm.go:145-158 | The first length, 32640, at which the code leaves the two-octet form that the standard still uses. |
| `Slices.SliceForAppend` | smb/internal/crypto/ccm/util.go:33-42 | Extends in place when the capacity allows it and into a fresh array otherwise, keeping the existing bytes. |
| `Slices.XorBytes` | smb/internal/crypto/ccm/util.go:45-54 | The loop overwrites the front of dst with the exclusive or over the shorter length and returns that length, also when the first operand is dst itself. |
| `Cmac.DoubleIsMultiplicationByU` | smb/internal/crypto/cmac/cmac.go:56-86 | Coefficient by coefficient, the subkey step (shift left by one bit, then the constant 0x87 on carry) multiplies by u modulo u^128+u^7+u^2+u+1. |
| `Cmac.Shift1` | smb/internal/crypto/cmac/cmac.go:136-144 | The carry loop shifts a block left by one bit, also in place, and returns the bit shifted out. |
| `Cmac.Digest.constructor` | smb/internal/crypto/cmac/cmac.go:56-85 | The two subkeys are the first and second doubling of the encrypted zero block (section 6.1 of SP 800-38B). |
| `Cmac.Digest.Reset` | smb/internal/crypto/cmac/cmac.go:88-93 | Starts the digest of the empty message. |
| `Cmac.Digest.Write` | smb/internal/crypto/cmac/cmac.go:96-108 | Appends the given bytes to the message, for every way of cutting it. |
| `Cmac.Digest.Sum` | smb/internal/crypto/cmac/cmac.go:112-128 | Returns the MAC of section 6.2 of everything written so far and leaves the running state as it was. |
| `Cmac.FinishIsMac` | smb/internal/crypto/cmac/cmac.go:112-128 | Finishing the lazy chain with the masked last block is the MAC of section 6.2, for empty, partial and full last blocks. |
| `Utf16.EncodedStringLen` | smb/internal/utf16le/utf16le.go:12-22 | The length loop returns exactly the number of bytes the encoder writes. |
| `Utf16.EncodeString` | smb/internal/utf16le/utf16le.go:24-30 | Writes the UTF-16LE form at the start of dst, leaves the rest, and returns its length. |
| `Utf16.DecodeToString` | smb/internal/utf16le/utf16le.go:44-56 | Decodes units in order, dropping one final NUL and an odd last byte. |
| `Utf16.DecodeEncode` | smb/internal/utf16le/utf16le.go:12-56 | Decoding inverts encoding for all strings of scalar values, except that exactly one final NUL is lost. |
| `Utf16.LoneNulIsLost` | smb/internal/utf16le/utf16le.go:44-56 | The string of a single NUL decodes to the empty string. |
| `Utf16.EncodedCancels` | smb/internal/utf16le/utf16le.go:24-42 | Different strings have different encodings. |
| `Ntlm.AvListInverts` | smb/internal/ntlm/ntlm.go:340-380 | Parsing printed attribute-value pairs gives back the pairs, with anything parsable behind them. |
| `Ntlm.ParsePairs` | smb/internal/ntlm/ntlm.go:340-380 | The loop fails exactly on blocks without a final end-of-list pair or with an incomplete pair, and otherwise maps every id to its last value. |
| `Ntlm.EncodePairs` | smb/internal/ntlm/ntlm.go:410-418 | The loop writes the pairs one behind the other and nothing else. |
| `Ntlm.EncodeResponse` | smb/internal/ntlm/ntlm.go:135-161 | The zeroed buffer becomes the NTLMv2 response: the keyed hash over server challenge and client structure, then that structure. |
| `Ntlm.Rc4Twice` | smb/internal/ntlm/server.go:292-300 | Decrypting the exchanged session key undoes its encryption; only the exclusive or matters. |
| `NtlmServer.Server.BuildTargetInfo` | smb/internal/ntlm/server.go:83-104 | The list is built back to front: time stamp, DNS names, NetBIOS names, end of list, leaving out empty names. |
| `NtlmServer.Server.Challenge` | smb/internal/ntlm/server.go:60-167 | Refuses short, foreign or wrong messages, and otherwise stores and returns the challenge with flags, nonce, payload descriptors and version in place. |
| `NtlmServer.Server.Authenticate` | smb/internal/ntlm/server.go:169-363 | The outcome, the session and the bytes left in the message, in every branch: malformed fields, empty credentials, guests, wrong response, wrong integrity code, success. |
| `NtlmServer.Server.CheckUser` | smb/internal/ntlm/server.go:251-355 | For a known user: recomputes the response, decrypts the exported key, and compares the integrity code over all three messages after zeroing it in place. |
| `NtlmServer.Server.CompareResponse` | smb/internal/ntlm/server.go:258-277 | A response is accepted exactly when it equals the one recomputed from its own time stamp, challenge and target information. |
| `NtlmClient.Client.Negotiate` | smb/internal/ntlm/client.go:32-55 | Produces and stores the 40-byte negotiate message. |
| `NtlmClient.Client.Authenticate` | smb/internal/ntlm/client.go:57-314 | The answer in every branch, with payload offsets, response, encrypted key, flags and the integrity code computed over the message with a zero code. |
| `NtlmClient.Client.PutCredentials` | smb/internal/ntlm/client.go:146-290 | The filled buffer is the complete message before its integrity code, and the exported key is the drawn one or the base key. |
| `NtlmHandshake.ClientListFacts` | smb/internal/ntlm/ntlm.go:208-242 | The list the client sends back parses, and announces an integrity code. |
| `NtlmHandshake.ChallengeReads` | smb/internal/ntlm/server.go:106-163 | What the client reads at the offsets of the challenge: flags, nonce, and the whole target information. |
| `NtlmHandshake.TargetNameReadsBackIff` | smb/internal/ntlm/server.go:131-147 | The target information is written over the target name: the client reads the true name (one not ending in NUL) if and only if it is empty. |
| `NtlmHandshake.TargetNameLost` | smb/internal/ntlm/server.go:131-147 | A concrete server name that the client does not read back. |
| `NtlmHandshake.FieldsAgree` | smb/internal/ntlm/client.go:110-290 | The server parses from the sealed message exactly the response, domain, user, key and flags the client wrote. |
| `NtlmHandshake.SealedReads` | smb/internal/ntlm/client.go:290-294 | Filling in the integrity code changes nothing else, and the code holds when the field is zeroed again. |
| `NtlmHandshake.ResponseFacts` | smb/internal/ntlm/ntlm.go:135-166 | With the same key and nonce the server accepts the client response and finds the integrity code announced. |
| `NtlmHandshake.HandshakeAgrees` | smb/internal/ntlm/client.go:32-314 | Agreement (section 3.3.2 of MS-NLMP): for all names, passwords and random values within 16-bit lengths, negotiate, challenge and answer lead the server to accept, the integrity code holds, and both sides have the same user, flags, exported key, signing and sealing keys. |
| `NtlmHandshake.Exchange` | smb/internal/ntlm/server.go:60-363 | Running the four messages between a client object and a server object leaves both with the same session. |
| `FileHandle.NoIoAfterClose` | fs.go:239-409 | In every interleaving of any number of reads, writes and closes, a call that is about to do its I/O finds the file still open. |
| `FileHandle.ReportsAreExact` | fs.go:239-267 | Every count handed to the close callback equals the bytes moved by all I/O of the whole schedule, modulo the counter width, by whichever closer; a finished closer reports exactly when some I/O moved a byte. |
| `FileHandle.RefusedAfterClose` | fs.go:317-340 | Once a close has finished, a call that starts is refused. |
| `FileHandle.WaitIsReleasable` | fs.go:239-267 | A closer that waits can be released: some call in the wait group leaves it in three of its own steps. |
| `FileHandle.RunKeepsInv` | fs.go:239-409 | The closing flag, the wait group and the double check keep I/O and closing apart in every reachable state. |
| `DirCursor.OpenDir.ReadDir` | fs.go:428-509 | A page is the next part of dot entries, buffered entries and unread entries; end only when nothing is left; it fails exactly when a fresh scan cannot read the attributes of the directory or the operating system is asked and fails, and then loses exactly the buffered entries. |
| `DirCursor.OpenDir.PutBack` | fs.go:512-522 | Entries put back are the next to be delivered. |
| `DirCursor.Fill` | smb/server/file_tree.go:1506-1587 | The response loop takes exactly the selected entries of a prefix of the page, stops for the buffer limit (never before the first entry) or after a single entry, and hands the rest back. |
| `DirCursor.OpenDir.Query` | smb/server/file_tree.go:1495-1600 | One query answers with the selected part of a prefix of what was left and keeps the rest; which status it gives; after a failure the rest is as before if and only if nothing was buffered or the scan restarted. |
| `DirCursor.ScanDeliversPrefix` | smb/server/file_tree.go:1450-1612 | Over any sequence of buffer sizes, single-entry flags and short reads, what a scan has returned is the selected part of a prefix, with the rest still to come; at the end everything has been returned exactly once. |
| `DirCursor.OpenDir.QueryAll` | smb/server/file_tree.go:1506-1600 | With everything selected and no failure, a query carries all it consumed, and at least one entry, until the listing is exhausted; it answers without entries but with more to come if and only if every entry of the next read has unreadable attributes, so never in a directory without such entries. |
| `DirCursor.UnreadableEntriesStall` | fs.go:486-505 | A concrete directory in which a query for everything answers that there is no such file while an entry is left. |
| `DirCursor.OpenDir.Enumerate` | smb/server/file_tree.go:1495-1600 | Querying until there are no more files ends, and finds exactly the selected entries once and in order, with any buffer sizes, single-entry flags and short reads; with everything selected and readable every earlier answer carries entries and together they are the whole listing. |
| `DirCursor.FailureLosesEntry` | fs.go:464-483 | A client that reads one entry, meets a failing read and reads on to the end never sees the parent entry that was put back. |
| `Packet.EncodeHeader` | smb/internal/smb2/packet.go:21-49 | Writing the fields one by one produces the encoded header over whatever bytes were there, keeping the unused ones. |
| `Packet.HeaderReadsBack` | smb/internal/smb2/packet.go:21-51 | The accessors read back what the encoder wrote, whatever follows the header. |
| `Packet.Sign` | smb/server/session.go:31-45 | The flag is set first, then the MAC over the packet as it is, then the signature. |
| `Packet.Verify` | smb/server/session.go:47-68 | Accepts exactly a packet that carries the expected signature, and leaves that signature in the buffer. |
| `Packet.VerifiedIsUnchanged` | smb/server/session.go:47-68 | A packet verifies if and only if verification leaves it as it was received. |
| `Packet.SignedVerifiesUnder` | smb/server/session.go:31-68 | For one MAC, a signed packet verifies if and only if the MAC does not tell it from the one with a zeroed signature field. |
| `Packet.SignedVerifiesIff` | smb/server/session.go:31-68 | A signed packet verifies under the same key, whatever the MAC, if and only if its signature field was zero before; with the MAC that tells otherwise. |
| `Packet.StaleSignatureFails` | smb/server/session.go:31-68 | A concrete packet and MAC: a header full of ones does not verify after it has been signed. |
| `Compound.ValidateFrame` | smb/server/conn.go:713-743 | Accepts exactly the frames whose links form a valid chain; the limit on the number of parts never refuses one. |
| `Compound.SegmentsTileFrame` | smb/server/conn.go:483-535 | The segments of a valid chain are each at least a header long and concatenate to the frame. |
| `Compound.CheckSegment` | smb/server/conn.go:756-790 | The verdict and the bytes left behind for one segment, in every branch. |
| `Compound.SplitFrame` | smb/server/conn.go:483-535 | The receiver loop terminates, hands over one packet per segment in order, never meets an invalid header although it rewrites signatures of earlier segments, and stops early only for want of a context. |
| `Compound.HandedOverIsSegments` | smb/server/conn.go:483-535 | Every packet handed over is its segment as its own check left it, whatever the verdict. |
| `Compound.HandedOverUnchanged` | smb/server/conn.go:516-525 | If every segment is trusted the worker receives exactly the segments. |
| `Compound.ContextMissingIff` | smb/server/conn.go:500-513 | The loop lacks the context it needs at the last packet if and only if every packet of the frame is related. |
| `Compound.LoneRelatedPacket` | smb/server/conn.go:500-513 | A concrete frame: one packet marked as related passes the validator and leaves the loop without a context. |
| `CompoundSend.CompoundContext.Size` | smb/server/compound.go:25-35 | The size loop returns the length of the assembled frame. |
| `CompoundSend.CompoundContext.Encode` | smb/server/compound.go:37-45 | Copying at 8-byte offsets into a zeroed buffer gives the assembled frame. |
| `CompoundSend.CompoundContext.Send` | smb/server/conn.go:810-862 | A response is related to earlier ones, linked unless it answers the last request, and buffered; only the last one flushes the whole frame. |
| `CompoundSend.CompoundRoundTrip` | smb/server/conn.go:810-862 | For any list of responses, and whenever the receiver notes the last request, the assembled frame passes the validator and splits into exactly the encoded responses, all but the last padded to 8 bytes (section 3.3.4.1.3 of MS-SMB2). |
| `CompoundSend.LinkedReadsBack` | smb/server/conn.go:813-826 | Each segment carries its own message id, session id, body and a zero signature, and the related flag unless it is the first. |
| `CompoundSend.SigningKeepsChain` | smb/server/conn.go:856-862 | Signing the assembled frame leaves its links and later segments alone. |
| `CompoundSend.FirstSegmentVerifiesIff` | smb/server/conn.go:856-862 | A frame is signed as one packet but verified packet by packet: its first packet verifies, whatever the MAC, if and only if the frame is a single packet whose signature field was zero; with the MAC that tells otherwise. |
| `Transform.CcmMatches` | smb/internal/crypto/ccm/ccm.go:57-131 | The CCM of the repository satisfies the only law assumed of an AEAD. |
| `Transform.Encrypt` | smb/server/session.go:70-99 | The frame is header, tag, authenticated data and sealed packet, for any AEAD that seals into spare capacity. |
| `Transform.EncryptCcm` | smb/server/session.go:70-99 | With the CCM object itself, whose return value is ignored, the frame is the same, because the buffer has room for the sealed packet. |
| `Transform.DecryptCcm` | smb/server/session.go:101-112 | With the CCM object itself, appending the tag behind the encrypted data and opening in place gives what the AEAD opens, or nothing above the payload limit. |
| `Transform.SealAndOpen` | smb/server/session.go:70-112 | A packet encrypted by one CCM object is decrypted by another one with the same key, exactly as it was. |
| `Transform.EncryptedReads` | smb/internal/smb2/packet.go:297-387 | What the receiver reads from the header of an encrypted packet. |
| `Transform.TransformRoundTripIff` | smb/server/conn.go:652-711 | For both header forms, the peer delivers an encrypted packet as it was if and only if it is a valid packet of at least a header and within the transport limit. |
| `Transform.DeliveredWasSealed` | smb/server/conn.go:652-711 | Whatever is delivered as decrypted is a valid packet whose frame is the sealing of exactly that packet under the receiving keys. |
| `Transform.FrameForKeylessSession` | smb/server/conn.go:652-694 | A concrete frame that asks a session without keys to decrypt it. |
| `Transform.MissingKeyIff` | smb/server/conn.go:652-694 | Exactly which received frames ask a session for a decrypter it does not have, where the code dereferences it. |
| `HandOff.FifoAndLossless` | smb/server/conn.go:58-88 | When neighbouring requests have different ids, in every interleaving the popped requests are a prefix, none is missed, the table holds at most two, and when nothing can move all are out. |
| `HandOff.EqualNeighboursLoseOne` | smb/server/conn.go:58-88 | For two equal ids in a row there is a schedule in which the first request is lost and the empty branch is taken. |
| `HandOff.NeverMissesIff` | smb/server/conn.go:58-88 | No schedule misses a request if and only if neighbouring ids differ. |
| `ConnSpec.BestIsLargest` | smb/server/server.go:806-819 | What the dialect loop computes: the start value or an offered dialect up to 3.1.1, at least as large as every such dialect. |
| `Connection.ChooseDialect` | smb/server/server.go:806-819 | The loop picks the largest dialect offered up to 3.1.1, and 2.1 when nothing above the 2.x wildcard is offered. |
| `Connection.Connection.CalcPreauthHash` | smb/server/server.go:1071-1082 | Extends the connection hash for SMB 3.1.1 with SHA-512 and otherwise nothing. |
| `Connection.Connection.SendPacket` | smb/server/conn.go:810-903 | Encodes, protects, chains both hashes and sends, or fails when a key is missing. |
| `Connection.Connection.EncodePacketRaw` | smb/server/conn.go:335-370 | A response without a session id of its own gets that of the active session once sessions are in use. |
| `Connection.Connection.ProtectPacket` | smb/server/conn.go:372-403 | Which responses leave plain, signed or encrypted. |
| `Connection.Connection.ReadNegotiateContexts` | smb/server/server.go:848-908 | The context loop: one hash algorithm or an error, the first known cipher, the rest skipped. |
| `Connection.Connection.Negotiate` | smb/server/server.go:792-919 | The whole negotiate handler, refused once sessions are in use. |
| `Connection.Connection.DeriveSessionKeys` | smb/server/server.go:1231-1322 | The keys of a session by dialect and cipher. |
| `Connection.Connection.SessionServerSetup` | smb/server/server.go:1084-1134 | The first message of the first session, in every branch. |
| `Connection.Connection.SessionServerSetupChallenge` | smb/server/server.go:1136-1226 | The second message of the first session: retry on failure, otherwise keys, activation and the final response. |
| `Connection.Connection.SessionSetupNewBinding` | smb/server/server.go:1327-1389 | The first message of a further session on an active connection. |
| `Connection.Connection.SessionSetupCompleteBinding` | smb/server/server.go:1392-1481 | The second message of a further session. |
| `Connection.Connection.SessionSetup` | smb/server/server.go:571-620 | Dispatch of a session setup by state and session id. |
| `Connection.Connection.Handle` | smb/server/server.go:441-539 | One request of any kind makes exactly the transition of the state machine. |
| `ConnLaws.RunKeepsInv` | smb/server/server.go:1136-1481 | In every run: each session is filed under its own id, a guest has no keys, a user has signer and verifier, users of dialect 3.0 or later have both ciphers, and encryption implies such a user. |
| `ConnLaws.StepFrozen` | smb/server/server.go:554-569 | Once a session is active no request changes the dialect, the cipher, the capability or either pre-authentication hash. |
| `ConnLaws.ConnectionHashIsFold` | smb/server/server.go:1071-1229 | For runs that offer SHA-512 in one context, the connection hash is the left fold over exactly the negotiate and setup requests and the sent bytes, in wire order, and stands still from activation (section 3.3.5.5 of MS-SMB2). |
| `ConnLaws.FirstSessionHash` | smb/server/server.go:1136-1229 | The first session of an SMB 3.1.1 connection gets its keys from the fold over the negotiate request, its response, the setup messages and responses, up to its own last request. |
| `ConnLaws.NegotiateHashIsFold` | smb/server/server.go:916-919 | The hash that further sessions start from is the fold over the wire up to the last negotiate before activation, whatever came later. |
| `ConnLaws.BoundSessionHash` | smb/server/server.go:1327-1481 | From every state that keeps the session invariant, so every reachable one: a bound session gets its keys from the negotiation hash extended by its own first request, the response to it and its second request, whatever other traffic interleaves. |
| `ConnLaws.BoundSessionWire` | smb/server/server.go:1327-1481 | The same over whole runs: the keys of a bound session come from everything exchanged up to the last negotiate before activation, its own first request, the response to it and its second request. |
| `ConnLaws.ResponseProtection` | smb/server/conn.go:372-403 | In every state that keeps the session invariant with a session active, every single response other than to a session setup is encrypted when the session asks for it, signed so that it verifies for users, and plain for guests; no key is ever missing. |
| `ConnLaws.EncryptedResponseArrivesIff` | smb/server/conn.go:652-711 | An encrypted response is delivered as it was by a peer with the matching key if and only if it is within the transport limit. |
| `ConnLaws.NoDecrypterIff` | smb/server/server.go:1231-1322 | In every run, the sessions without a decrypter are exactly those of guests and of dialects below 3.0. |
| `ConnLaws.OthersAreNotBinding` | smb/server/conn.go:874-884 | No response but its own is taken for one of a pending session, plain, signed or encrypted, when the random id is fresh. |
| `TreeTables.ConnectKeepsSoundIff` | smb/server/server.go:657-754 | Connecting keeps the two tables a bijection if and only if the path is mounted already or the drawn id is unused. |
| `TreeTables.RunIsSoundIff` | smb/server/server.go:635-790 | Throughout a run the tables hold the same mounts under their own path and id if and only if no new mount draws an id that is in use; then an id resolves exactly while it has been connected more often than disconnected, which is its count. |
| `TreeTables.ClashingDraws` | smb/server/server.go:657-754 | A concrete run of two mounts that draw one id, after which the first path leads to the second mount. |
| `TreeTables.Connection.TreeConnect` | smb/server/server.go:657-754 | Counts up the shared tree object of the path, or enters a new one in both tables, whatever id is drawn; the tables agree afterwards if and only if the path was mounted or the id unused. |
| `TreeTables.Connection.TreeDisconnect` | smb/server/server.go:761-790 | Counts the tree of the id down and drops it from both tables at zero; an unknown id changes nothing. |
| `SecurityDescriptor.DescriptorRoundTrip` | smb/server/acl.go:33-93 | Decoding an encoded self-relative descriptor gives back its owner, group and both lists, with a size that is a multiple of eight. |
| `SecurityDescriptor.EncodeSid` | smb/server/acl.go:138-145 | The loop writes the identifier and nothing else. |
| `SecurityDescriptor.EncodeAce` | smb/server/acl.go:157-163 | The entry with its own size, mask and identifier. |
| `SecurityDescriptor.EncodeAcl` | smb/server/acl.go:175-185 | The list header and every entry at the running offset. |
| `SecurityDescriptor.EncodeDescriptor` | smb/server/acl.go:50-87 | Control bits, the offsets of the parts that are present, and the parts in order. |
| `SecurityDescriptor.AclRoundTrip` | smb/server/acl.go:276-300 | Decoding a printed list gives back its entries in order. |
| `SecurityDescriptor.SidRoundTrip` | smb/internal/smb2/dtyp.go:113-159 | Decoding a printed identifier gives back authority and sub-authorities. |
| `SecurityDescriptor.MaskRoundTrip` | smb/server/acl.go:188-202 | The access mask of three permission bits maps back to exactly those bits. |
| `SecurityDescriptor.ScanFindsFirst` | smb/server/file_tree.go:2439-2462 | A list that is complete up to its first NFS mode identifier gives that mode. |
| `SecurityDescriptor.FindMode` | smb/server/file_tree.go:2439-2462 | The first loop returns the mode of the first NFS mode identifier, if there is one, and leaves its range only in an incomplete list. |
| `SecurityDescriptor.DeriveMode` | smb/server/file_tree.go:2463-2505 | The second loop returns, for owner, group and everyone, the bits of the last allow entry. |
| `SecurityDescriptor.SetSecInfo` | smb/server/file_tree.go:2391-2528 | The user, group and mode a descriptor sets, also when its access list is incomplete behind an NFS mode identifier; and exactly which descriptors make the code read out of range. |
| `SecurityDescriptor.ChmodMeaning` | smb/server/file_tree.go:2463-2512 | If the allow entries of owner, group and everyone carry the masks of their permission bits, in any order and among other entries, exactly that nine-bit mode is set. |
| `SecurityDescriptor.FirstModeWins` | smb/server/file_tree.go:2439-2462 | The first NFS mode identifier decides the mode wherever it sits. |
| `SecurityDescriptor.MadeSidsRecognised` | smb/server/acl.go:110-160 | The identifiers the server makes for users, groups, modes and everyone are recognised as such. |
| `Listings.EncodeListing` | smb/server/info_fs.go:856-867 | The loop prints every entry at the running offset with its link in front and a zero link at the end. |
| `Listings.EncodeDir` | smb/server/info_fs.go:588-600 | One entry: fields, name length and name. |
| `Listings.EncodeNotices` | smb/server/info_fs.go:963-980 | The loop prints links, notifications and their padding as zeros, into a buffer with any contents. |
| `Listings.ListingRoundTrip` | smb/internal/smb2/fscc.go:334-382 | Following the links of a printed listing finds every entry in order, each a multiple of eight bytes, and reads back its fields and name. |
| `Listings.NoticesRoundTrip` | smb/server/info_fs.go:930-980 | Following the links of printed notifications reads back every action and name in order, all but the last aligned to four bytes. |
| `ShareEnum.Encoder.EncodeResponse` | smb/internal/smb2/dcerpc.go:285-309 | The nested encoders fill a buffer of the computed size with header, counts, references, names and trailer. |
| `ShareEnum.Encoder.EncodeStrings` | smb/internal/smb2/dcerpc.go:333-370 | Every name and its empty comment, each within its size. |
| `ShareEnum.SizeOfStrings` | smb/internal/smb2/dcerpc.go:344-350 | The size loop returns the bytes the encoder writes for names and comments. |
| `ShareEnum.IsIncomplete` | smb/internal/msrpc/msrpc.go:278-348 | The check is true exactly when some counted string of a known level is missing. |
| `ShareEnum.ShareNameList` | smb/internal/msrpc/msrpc.go:354-396 | The loop returns the names of a complete response in order. |
| `ShareEnum.ShareListRoundTripIff` | smb/internal/smb2/dcerpc.go:416-456 | Every response of the server is valid and complete for the client; the list read has every name in order followed by one NUL per byte its count has too many, so it equals the list of names if and only if all names are ASCII. |
| `ShareEnum.AccentedNameGrows` | smb/internal/smb2/dcerpc.go:416-427 | A concrete one-letter name outside ASCII that comes back with a NUL. |

## Left out

- Cmac.Digest.constructor: block ciphers with 64-bit blocks are not modelled; the server only uses 128-bit ones.
- CcmImpl.Ccm.Open: an empty payload and a wrong nonce length are errors of the caller and are not branches of the model.
- Ntlm.ParsePairs: the values are copies; that they alias the message matters only for a challenge that already carries the flags pair.
- NtlmClient.Client.Authenticate: a challenge that already carries the flags pair is answered with an error instead of being amended in place; this server never sends one. The 32-bit wrap of offset plus length in malformed messages, which ends in a slice out of range, counts as a malformed field.
- NtlmServer.Server.Authenticate: slices out of range in malformed messages are an explicit refusal (`OutOfRange`), or a malformed field when offset plus length wraps at 32 bits.
- NtlmHandshake.HandshakeAgrees: holds for a client that starts with its own negotiate message and proves agreement, not secrecy; nothing is assumed of the hash functions but determinism.
- NTLM message sealing and signing with a finished session: the flag that enables sealing is never negotiated.
- FileHandle.WaitIsReleasable: states that the wait can be released, not that a fair scheduler will do so; the scheduler and the memory model of the language are outside the model.
- FileHandle.ReportsAreExact: the byte counters wrap at 64 bits, and the statement is modulo that width.
- CcmImpl.Ccm.Seal: a payload that partly overlaps the bytes to be written, which the original's counter mode refuses, or which overlaps only the room for the tag.
- DirCursor.OpenDir.ReadDir: the operating system's read is "one to n next entries, or the end"; a failing read is assumed not to move its position.
- DirCursor.OpenDir.Query: only wildcard patterns; a pattern without wildcards is a single lookup, and a failed earlier request of a compound answers with its status instead. Pattern matching itself is an arbitrary predicate.
- Compound.SplitFrame: a missing context ends the loop; the original would dereference it. Related packets outside a chain are otherwise not modelled.
- CompoundSend.CompoundContext.Send: credits, tree ids and the protection of the finished frame are not part of it (signing is treated in `CompoundSend.SigningKeepsChain`); unrelated compounds are not modelled.
- Transform.TransformRoundTripIff: frames below 2^32 bytes, the width of the size field; the seal operation of CCM accepts no more.
- HandOff.FifoAndLossless: shutting a connection down is the single event that stops the worker; the error it stores in waiting requests is not modelled.
- Connection.Connection.Handle: one response for every other command (the file operations, notifications and locks behind it are not modelled), no compounds; requests arrive decoded, and the security layer's verdict, its token and its session key are inputs. SPNEGO, POSIX extensions and compression contexts, credits and the client profile are left out. Handler errors and calls into missing objects end the connection.
- Connection.Connection.SendPacket: the buffering and flushing of compound responses (see `CompoundSend`), credits.
- Connection.Connection.EncodePacketRaw: the tree id and credits of the header.
- Connection.Connection.ProtectPacket: the encryption flag of a share, which the server never sets.
- Connection.Connection.Negotiate: the transfer limits, and the signing requirement, which is a parameter of the receiver's check in `Compound.CheckSegment`.
- ConnLaws.ResponseProtection: single responses; for compound frames signing does not give verifiable packets (`CompoundSend.FirstSegmentVerifiesIff`).
- ConnLaws.ConnectionHashIsFold: assumes that every negotiate for SMB 3.1.1 offers SHA-512 in exactly one context; with other offers the code hashes the request once per context or not at all.
- ConnLaws.BoundSessionHash: assumes that the random id of the pending session is not zero, not in use, and not what the bytes of an encrypted frame would show at the place of a session id.
- TreeTables.Connection.TreeConnect: the access checks, which happen before and change no table.
- SecurityDescriptor.SetSecInfo: reading out of range is the result "nothing"; the failure of the attribute change itself is not modelled.
- Listings.EncodeDir: the times, sizes and attributes of an entry are one block of 56 bytes.
- Listings.ListingRoundTrip: the times, sizes and attributes of an entry are one block of 56 bytes; the other information classes differ only in that block. Names ending in NUL lose it on decoding.
- ShareEnum.Encoder.EncodeResponse: the reference counter belongs to one encoder, where the original shares one among all connections; the reader never looks at the values.
- Malformed requests beyond the checks above: the decoders of the other commands are not modelled.
- The transport, logging, timers, change-notify coalescing, file-system watching, extended attributes, configuration and the command line.
- Credit accounting: the functions that lend and charge credits have no callers in the server.
- The encoder of the general identifier type, whose authority does not match its decoder; the server uses the one modelled here.
