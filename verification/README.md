# cryptviz, modelled in Dafny

cryptviz is an educational web front end that explains hashing, signatures
and hash chains with interactive visualizers. All real cryptography goes
through the browser's Web Crypto API. This project models the logic around
those calls:

- the hex codec and crypto facade of `src/utils/crypto.ts`;
- the Caesar cipher demo and the "pseudo-encryption" (reversed base64) of
  the hashing-versus-encryption panel;
- the avalanche diff and its one-character flip;
- the hash-chain relinking of the blockchain demo;
- the state machines of the five signing visualizers;
- the topic table and the topic page's navigation.

Each module follows one source file:

| module | models |
|---|---|
| `JsCore` (`jscore.dfy`) | UTF-16 strings, `ToUint16`, `%` on numbers, `String(n)`, slices |
| `TextEncoding` (`text_encoding.dfy`) | `TextEncoder.encode`: UTF-16 to UTF-8, lone surrogates become U+FFFD |
| `Hex` (`hex.dfy`) | `bufferToHex`, `hexToBuffer` (the `/.{1,2}/g` tokens, `parseInt(·, 16)`, `Uint8Array` coercion) |
| `CryptoFacade` (`crypto.dfy`) | `sha256`, `generateKeyPair`, `signMessage`, `verifySignature` |
| `CaesarCipher` (`caesar.dfy`) | `CaesarCipherDemo.tsx` |
| `Base64` (`base64.dfy`) | `btoa`, base64 as in section 4 of RFC 4648, with a decoder |
| `HashVsEncryption` (`hash_vs_encryption.dfy`) | `HashVsEncryption.tsx` |
| `Avalanche` (`avalanche.dfy`) | `AvalancheDemo.tsx` |
| `Blockchain` (`blockchain.dfy`) | `BlockchainDemo.tsx` |
| `EncryptionFlow`, `DigitalSignature`, `SignVerifyVisualizer`, `SignVerifyDemo`, `TransactionFlow` | the five signing visualizers |
| `Topics`, `TopicPage` (`topics.dfy`, `topic_page.dfy`) | `src/data/topics.ts`, `src/pages/TopicPage.tsx` |

Modelling conventions:

- **Strings.** JavaScript strings are sequences of UTF-16 code units
  (`JsString = seq<CodeUnit>`, each unit in 0..0xFFFF). The flip in the
  avalanche demo can produce any code unit, including lone surrogates.
- **Web Crypto.** It is a `SubtleCrypto` value with three function fields
  (`digest`, `sign`, `verify`). A rejected `sign` or `verify` promise is a
  `Failure`; `digest` is taken as total.
- **ECDSA assumptions.** What the signing demos assume of ECDSA is stated as
  two hypotheses on a key pair. `Correct`: the public key accepts what the
  private key signed. `Binding`: the public key accepts a signature for no
  other bytes. Lemmas take these as preconditions.
- **Key generation.** Its outcome depends on fresh randomness, so it is an
  input, `Result<GeneratedKeys, CryptoError>`.
- **Flip index.** The `Math.random` index of the flip is a parameter.
- **Handlers.** Each React handler is one atomic transition on an immutable
  state record. This includes the parts delayed by `await` or `setTimeout`.
  A rejected await leaves the state as it was at that await.
- **Event runs.** Each visualizer has an event type and a `Run` over event
  sequences. Invariant lemmas over `Run` say what every reachable state
  satisfies.

## Model

| member | source | states |
|---|---|---|
| `Hex.BufferToHex` | src/utils/crypto.ts:11-15 | the output has two characters per byte, all lowercase hex |
| `Hex.ByteToHex` | src/utils/crypto.ts:13 | each byte becomes exactly two lowercase digits, zero-padded, high nibble first, whose value is the byte |
| `Hex.BufferToHexPairs` | src/utils/crypto.ts:11-15 | characters 2i and 2i+1 of the hex spell byte i |
| `Hex.HexToBuffer` | src/utils/crypto.ts:17-21 | the empty string gives the empty buffer (`match` yields `null`); one byte per regex token |
| `Hex.HexToBufferOfHex` | src/utils/crypto.ts:18-20 | on well-formed hex: ceil(len/2) bytes, each pair read as a byte, a trailing single digit read as a byte of its own |
| `Hex.HexRoundTrip` | src/utils/crypto.ts:11-21 | `hexToBuffer(bufferToHex(b)) == b` for every buffer |
| `TextEncoding.Utf8Encode` | src/utils/crypto.ts:6 | UTF-8 encoding needs between one and three bytes per UTF-16 code unit |
| `TextEncoding.AsciiEncodesToItself` | src/utils/crypto.ts:6 | an ASCII string encodes to its own code units |
| `TextEncoding.AppendAscii` | src/utils/crypto.ts:59 | appending an ASCII unit appends that one byte to the encoding |
| `TextEncoding.LoneSurrogateCollides` | src/utils/crypto.ts:59 | a lone surrogate encodes like U+FFFD, so two different strings can sign the same bytes |
| `CryptoFacade.Sha256` | src/utils/crypto.ts:5-9 | the digest hex is 64 lowercase characters, and it decodes back to the digest of the UTF-8 bytes |
| `CryptoFacade.DisplayHex` | src/utils/crypto.ts:46-47 | `slice(-64)` keeps min(64, 2·len) characters: the suffix of the hex, which is the hex of the last 32 bytes |
| `CryptoFacade.GenerateKeyPair` | src/utils/crypto.ts:30-49 | a rejected generation or export propagates; on success the handles are kept and each display string is a suffix of its export's hex, of length min(64, 2·len) |
| `CryptoFacade.SignMessage` | src/utils/crypto.ts:51-62 | fails iff `sign` rejects; otherwise 128 lowercase hex characters that decode to exactly the signer's bytes |
| `CryptoFacade.VerifySignature` | src/utils/crypto.ts:64-80 | total: true iff `verify` resolves to true on the decoded signature and UTF-8 message; a rejection reads as false |
| `CryptoFacade.TailHex` | src/utils/crypto.ts:46-47 | the last 64 hex characters of a buffer are the hex of its last 32 bytes |
| `CryptoFacade.BufferToHexAppend` | src/utils/crypto.ts:11-15 | the hex of a concatenation is the concatenation of the hex |
| `CryptoFacade.SignThenVerify` | src/utils/crypto.ts:51-80 | with a correct key pair, the facade accepts its own signature over the same message |
| `CryptoFacade.VerifyRejectsOtherMessage` | src/utils/crypto.ts:64-80 | with a binding key pair, a signature is rejected for every message with different UTF-8 bytes |
| `CaesarCipher.ToUpperCase` | src/components/visualizers/CaesarCipherDemo.tsx:11 | the ASCII upper-casing `processText` applies to filtered text works unit by unit and keeps the length |
| `CaesarCipher.ShiftUnit` | src/components/visualizers/CaesarCipherDemo.tsx:13-15 | non-letters are kept; for shift ≥ 0 a letter maps to ((code−65+shift) mod 26)+65, which stays in A..Z |
| `CaesarCipher.ProcessText` | src/components/visualizers/CaesarCipherDemo.tsx:11-17 | same length as the input; non-letters pass through upper-cased; letters shift cyclically |
| `CaesarCipher.ShiftBackRestores` | src/components/visualizers/CaesarCipherDemo.tsx:14 | shifting by s, then by 26−s, restores the upper-cased text |
| `CaesarCipher.Initial` | src/components/visualizers/CaesarCipherDemo.tsx:6-7 | the initial state ('HELLO', shift 3) satisfies the demo's invariant |
| `CaesarCipher.UpperCaseWith` | src/components/visualizers/CaesarCipherDemo.tsx:72 | full upper-casing of a typed value: at most three units per typed unit |
| `CaesarCipher.UpperCaseWithAscii` | src/components/visualizers/CaesarCipherDemo.tsx:72 | on ASCII text the full upper-casing is the ASCII one |
| `CaesarCipher.KeepLetters` | src/components/visualizers/CaesarCipherDemo.tsx:72 | `replace(/[^A-Z ]/g, '')` keeps only A..Z and space, never lengthens, drops nothing iff the text is already filtered, and leaves filtered text as it is |
| `CaesarCipher.FilterInput` | src/components/visualizers/CaesarCipherDemo.tsx:72 | the stored value holds only A..Z and spaces and is at most three times as long as what was typed |
| `CaesarCipher.FilterAsciiNoLonger` | src/components/visualizers/CaesarCipherDemo.tsx:72 | typed ASCII never grows in the filter |
| `CaesarCipher.FilterKeepsFiltered` | src/components/visualizers/CaesarCipherDemo.tsx:72 | the filter leaves already-filtered text unchanged (idempotence) |
| `CaesarCipher.SharpSUpperCase` | src/components/visualizers/CaesarCipherDemo.tsx:72 | when 'ß' upper-cases to "SS", n of them become 2n letters S |
| `CaesarCipher.ExpandedInputExceedsMaxLength` | src/components/visualizers/CaesarCipherDemo.tsx:72-75 | ten 'ß' fit the field's `maxLength` of 10 but are stored as 20 letters |
| `CaesarCipher.Step` | src/components/visualizers/CaesarCipherDemo.tsx:48-72 | − lowers the shift to at least 1, + raises it to at most 25, typing replaces the input by the filtered value |
| `CaesarCipher.ReachableValid` | src/components/visualizers/CaesarCipherDemo.tsx:7-75 | in every reachable state the shift is in 1..25 and the input holds only A..Z or space |
| `CaesarCipher.AsciiTypingWithinMaxLength` | src/components/visualizers/CaesarCipherDemo.tsx:71-75 | as long as only ASCII is typed, the input stays within `maxLength` |
| `CaesarCipher.MappingRow` | src/components/visualizers/CaesarCipherDemo.tsx:154-158 | the alphabet row has five entries, 65+shift..69+shift, without wrap-around |
| `CaesarCipher.MappingRowAgreesIff` | src/components/visualizers/CaesarCipherDemo.tsx:154-158 | for shifts 1..25 the row agrees with `processText` on A..E iff shift ≤ 21 |
| `CaesarCipher.MappingRowAtShift22` | src/components/visualizers/CaesarCipherDemo.tsx:154-158 | at shift 22 the row shows '[' for E, where the cipher gives 'A' |
| `CaesarCipher.CorrectedMappingRow` | src/components/visualizers/CaesarCipherDemo.tsx:154-158 | the corrected row wraps: entry k is letter (k+shift) mod 26 |
| `Base64.AlphabetValue` | src/components/visualizers/HashVsEncryption.tsx:18 | decoding a character inverts the base64 alphabet |
| `Base64.AlphabetValueOfChar` | src/components/visualizers/HashVsEncryption.tsx:18 | every alphabet character decodes to its own value and differs from the padding '=' |
| `Base64.PadCount` | src/components/visualizers/HashVsEncryption.tsx:18 | padding is 0 to 2 characters and completes the length to a multiple of 3 |
| `Base64.EncodeGroup` | src/components/visualizers/HashVsEncryption.tsx:18 | a group encodes to 4 characters, '=' exactly in the last PadCount positions |
| `Base64.Encode` | src/components/visualizers/HashVsEncryption.tsx:18 | the encoding has 4·ceil(n/3) characters |
| `Base64.PaddingAtEnd` | src/components/visualizers/HashVsEncryption.tsx:18 | '=' appears exactly in the last PadCount(n) positions of the encoding |
| `Base64.DecodeEncode` | src/components/visualizers/HashVsEncryption.tsx:18 | the reference decoder inverts the encoder on every byte string |
| `Base64.Latin1Bytes` | src/components/visualizers/HashVsEncryption.tsx:18 | `btoa` reads each code unit of a Latin-1 string as one byte |
| `Base64.Btoa` | src/components/visualizers/HashVsEncryption.tsx:18 | throws iff a code unit exceeds 0xFF; otherwise 4·ceil(n/3) characters that decode to the string's bytes |
| `HashVsEncryption.PseudoEncrypt` | src/components/visualizers/HashVsEncryption.tsx:18 | fails iff the input is not Latin-1; otherwise 4·ceil(n/3) characters, with '=' only in the first PadCount positions; reversing and decoding recovers the input |
| `HashVsEncryption.HashDisplay` | src/components/visualizers/HashVsEncryption.tsx:14-76 | the hash shown is the first 24 characters of the 64-character digest hex |
| `HashVsEncryption.RefreshAsWritten` | src/components/visualizers/HashVsEncryption.tsx:12-23 | as written: when `btoa` throws, `encrypted` and `isDecrypted` keep their old values |
| `HashVsEncryption.StaleAfterWideInput` | src/components/visualizers/HashVsEncryption.tsx:12-157 | as written: reveal 'A', then type '€', and "Message Restored!" stays open printing '€' beside the ciphertext of 'A', so the restored panel is not honest |
| `HashVsEncryption.Refresh` | src/components/visualizers/HashVsEncryption.tsx:12-23 | corrected: every refresh resets `isDecrypted`, and the ciphertext always belongs to the current input |
| `HashVsEncryption.Mount` | src/components/visualizers/HashVsEncryption.tsx:7-23 | the panel mounts on 'MySecret123', closed, with ciphertext and input in step |
| `HashVsEncryption.Type` | src/components/visualizers/HashVsEncryption.tsx:12-55 | corrected: every input change closes the panel and recomputes the hash and a ciphertext of the new input |
| `HashVsEncryption.TypeAsWritten` | src/components/visualizers/HashVsEncryption.tsx:12-55 | as written: the hash is always recomputed; a Latin-1 value closes the panel with its own ciphertext, and any other value leaves ciphertext and panel as they were |
| `HashVsEncryption.RevealClick` | src/components/visualizers/HashVsEncryption.tsx:141-147 | as written: the reveal button opens the panel and changes nothing else |
| `HashVsEncryption.GuardedReveal` | src/components/visualizers/HashVsEncryption.tsx:141-157 | corrected: the panel opens iff the input has a base 64 form, and nothing else changes |
| `HashVsEncryption.AlwaysHonest` | src/components/visualizers/HashVsEncryption.tsx:12-157 | corrected: in every reachable state an open "Message Restored!" panel prints a Latin-1 input that the ciphertext decodes to |
| `HashVsEncryption.AsWrittenKeepsLatin1Current` | src/components/visualizers/HashVsEncryption.tsx:12-157 | as written: the hash always belongs to the current input, and a Latin-1 input always has its own ciphertext |
| `Avalanche.Initial` | src/components/visualizers/AvalancheDemo.tsx:8-12 | two ten-character inputs, no hashes and 0% at first |
| `Avalanche.DiffsBelow` | src/components/visualizers/AvalancheDemo.tsx:22-25 | the count over the first k positions is at most k |
| `Avalanche.DiffCount` | src/components/visualizers/AvalancheDemo.tsx:22-25 | 0 ≤ diffs ≤ len(h1) |
| `Avalanche.NoDiffsBelow` | src/components/visualizers/AvalancheDemo.tsx:22-25 | no difference is counted below k iff none of the first k positions differs |
| `Avalanche.DiffCountZeroIff` | src/components/visualizers/AvalancheDemo.tsx:22-26 | diffs is 0 iff h1 is a prefix of h2, so identical hashes give 0 |
| `Avalanche.CountDiffs` | src/components/visualizers/AvalancheDemo.tsx:22-25 | the loop counts exactly the differing positions i < len(h1) |
| `Avalanche.RoundPercent` | src/components/visualizers/AvalancheDemo.tsx:26 | `Math.round(100·diffs/len)` with halves rounded up, in 0..100: 0 for no difference, 100 when all differ |
| `Avalanche.RoundingBounds` | src/components/visualizers/AvalancheDemo.tsx:26 | the integer formula brackets 100·diffs/len within half a unit |
| `Avalanche.Recompute` | src/components/visualizers/AvalancheDemo.tsx:14-29 | the hashes are SHA-256 of the inputs; the percentage is in 0..100, and 0 for equal inputs |
| `Avalanche.FlipUnit` | src/components/visualizers/AvalancheDemo.tsx:40 | the new code unit always differs: 'A' becomes 'B', anything else code−1 |
| `Avalanche.HandleFlip` | src/components/visualizers/AvalancheDemo.tsx:31-44 | an empty input gives "Hello"/"Hullo"; otherwise `input1` is kept and `input2` equals it except at the chosen index |
| `Avalanche.FlipThenRecompute` | src/components/visualizers/AvalancheDemo.tsx:31-44 | after a flip the inputs differ at exactly one position, the chosen index |
| `Avalanche.CompareMap` | src/components/visualizers/AvalancheDemo.tsx:46-70 | no map while a hash is empty; otherwise cell i is marked iff the hashes differ there |
| `Avalanche.MarkedCountIsDiffCount` | src/components/visualizers/AvalancheDemo.tsx:22-51 | the number of marked cells equals `diffs` |
| `Avalanche.MarkedAgree` | src/components/visualizers/AvalancheDemo.tsx:50-51 | marks and differences agree on every prefix |
| `Blockchain.InitialBlocks` | src/components/visualizers/BlockchainDemo.tsx:101-105 | three blocks with ids 1..3, nonce 0, no hash, and the genesis sentinel |
| `Blockchain.DemoHash` | src/components/visualizers/BlockchainDemo.tsx:116 | the demo's hash is 64 lowercase hex characters on every input |
| `Blockchain.Relink` | src/components/visualizers/BlockchainDemo.tsx:114-117 | from i on, each block takes its predecessor's hash and its own hash is recomputed; the earlier blocks, ids, data and nonces are untouched |
| `Blockchain.HandleDataChange` | src/components/visualizers/BlockchainDemo.tsx:108-121 | fails (TypeError) iff no block sits at the id; otherwise block id−1 gets the data, the rest keep theirs, the prefix is unchanged, the genesis `prevHash` stays, and every block from id−1 on is relinked and rehashed |
| `Blockchain.MountLinks` | src/components/visualizers/BlockchainDemo.tsx:123-126 | the mount call `handleDataChange(1, 'Genesis Block')` links the whole chain |
| `Blockchain.EditKeepsLinked` | src/components/visualizers/BlockchainDemo.tsx:108-121 | an edit to any block of a linked chain succeeds and keeps it linked and numbered |
| `Blockchain.EditsKeepLinked` | src/components/visualizers/BlockchainDemo.tsx:108-126 | every sequence of edits keeps the chain linked |
| `Blockchain.BadgeMatchesLinkage` | src/components/visualizers/BlockchainDemo.tsx:36-153 | the badge is always LINKED, never BROKEN, and on every reachable chain that is true |
| `EncryptionFlow.Initial` | src/components/visualizers/EncryptionFlow.tsx:20-24 | no keys, step 0 |
| `EncryptionFlow.HandleGenKeys` | src/components/visualizers/EncryptionFlow.tsx:26-30 | sets only the given actor's keys; a rejection changes nothing |
| `EncryptionFlow.NextStep` | src/components/visualizers/EncryptionFlow.tsx:32-34 | (step+1) mod 6: one step on below 5, from 5 back to 0, keys kept |
| `EncryptionFlow.Reset` | src/components/visualizers/EncryptionFlow.tsx:36-38 | step 0, keys kept |
| `EncryptionFlow.ControlShown` | src/components/visualizers/EncryptionFlow.tsx:40-368 | Next iff both keys exist and step < 5; Reset iff both exist and step is 5; otherwise the hint |
| `EncryptionFlow.ActorPanels` | src/components/visualizers/EncryptionFlow.tsx:58-95 | at every step an actor is active; both only at step 0 |
| `EncryptionFlow.LabelHighlight` | src/components/visualizers/EncryptionFlow.tsx:139-150 | no label at step 0, the step's own label later, and never two |
| `EncryptionFlow.PayloadDisplay` | src/components/visualizers/EncryptionFlow.tsx:180-266 | lock and document are never shown together; the badge comes with the seal and document; the seal label never with the lock |
| `EncryptionFlow.StepKeepsValid` | src/components/visualizers/EncryptionFlow.tsx:32-368 | a click on a visible control keeps the step in 0..5; Next never wraps; Reset comes only at step 5 |
| `EncryptionFlow.RunValid` | src/components/visualizers/EncryptionFlow.tsx:24-368 | every reachable state has step 0..5, and both identities exist past step 0 |
| `DigitalSignature.Initial` | src/components/visualizers/DigitalSignatureVisualizer.tsx:15-30 | stage 0 with empty simulation data |
| `DigitalSignature.StartSimulation` | src/components/visualizers/DigitalSignatureVisualizer.tsx:32-44 | stage 1 with the digest of the message, the private key hex and the signature of that message; a rejection changes nothing |
| `DigitalSignature.NextStep` | src/components/visualizers/DigitalSignatureVisualizer.tsx:46-48 | min(4, stage+1): idempotent at 4 |
| `DigitalSignature.Reset` | src/components/visualizers/DigitalSignatureVisualizer.tsx:50-52 | stage 0, message and data kept |
| `DigitalSignature.EditMessage` | src/components/visualizers/DigitalSignatureVisualizer.tsx:109-110 | typing (possible only at stage 0) sets the message and resets |
| `DigitalSignature.ControlShown` | src/components/visualizers/DigitalSignatureVisualizer.tsx:77-89 | Start iff stage 0, Reset iff stage ≥ 4, Next otherwise |
| `DigitalSignature.SignatureShown` | src/components/visualizers/DigitalSignatureVisualizer.tsx:211-218 | shown only at stage 4, at most 128 characters, a prefix of the signature |
| `DigitalSignature.SignatureShownWhole` | src/components/visualizers/DigitalSignatureVisualizer.tsx:211-218 | the 128-character cut never truncates a real signature |
| `DigitalSignature.SimulationConsistent` | src/components/visualizers/DigitalSignatureVisualizer.tsx:32-44 | the stored digest and signature belong to the same message, and the signature verifies |
| `DigitalSignature.RunValid` | src/components/visualizers/DigitalSignatureVisualizer.tsx:23-110 | stage stays in 0..4, and past 0 the digest is that of the message on screen |
| `SignVerifyVisualizer.Initial` | src/components/visualizers/SignVerifyVisualizer.tsx:9-19 | stage 0 with nothing signed |
| `SignVerifyVisualizer.HandleGenKeys` | src/components/visualizers/SignVerifyVisualizer.tsx:21-25 | keys stored and stage 1 |
| `SignVerifyVisualizer.HandleSignAsWritten` | src/components/visualizers/SignVerifyVisualizer.tsx:27-33 | as written: nothing without keys; otherwise the signature, `receivedMessage := message`, stage 2, and the old verdict kept |
| `SignVerifyVisualizer.StaleVerdictAfterResign` | src/components/visualizers/SignVerifyVisualizer.tsx:27-224 | as written: sign, tamper, verify, edit, sign again, and "Tampered / Fake" stays beside an authentic message; of ECDSA it assumes only that the first signature fails on the tampered bytes and the second verifies the edited message |
| `SignVerifyVisualizer.HandleSign` | src/components/visualizers/SignVerifyVisualizer.tsx:27-33 | corrected: as written, and the new signature clears the verdict |
| `SignVerifyVisualizer.ResignClearsVerdict` | src/components/visualizers/SignVerifyVisualizer.tsx:27-48 | with the corrected handler the same clicks leave no verdict |
| `SignVerifyVisualizer.HandleVerify` | src/components/visualizers/SignVerifyVisualizer.tsx:35-43 | nothing without keys or a signature; otherwise the verdict on `receivedMessage` |
| `SignVerifyVisualizer.Tamper` | src/components/visualizers/SignVerifyVisualizer.tsx:45-48 | appends one space (length +1) and clears the verdict |
| `SignVerifyVisualizer.EditMessage` | src/components/visualizers/SignVerifyVisualizer.tsx:128 | editing sets the message and clears the signature, nothing else |
| `SignVerifyVisualizer.ClearResult` | src/components/visualizers/SignVerifyVisualizer.tsx:222 | clears the verdict only |
| `SignVerifyVisualizer.Reset` | src/components/visualizers/SignVerifyVisualizer.tsx:50-55 | clears stage, keys, signature and verdict; both messages are kept |
| `SignVerifyVisualizer.KeyShown` | src/components/visualizers/SignVerifyVisualizer.tsx:108-117 | keys shown iff present, each as at most 32 leading characters |
| `SignVerifyVisualizer.SignThenVerifyAccepts` | src/components/visualizers/SignVerifyVisualizer.tsx:27-180 | signed and verified untouched: accepted, not highlighted |
| `SignVerifyVisualizer.TamperThenVerifyRejects` | src/components/visualizers/SignVerifyVisualizer.tsx:35-180 | tampered after signing: rejected and highlighted |
| `SignVerifyVisualizer.RunValid` | src/components/visualizers/SignVerifyVisualizer.tsx:9-93 | corrected (with `HandleSign`): every reachable state keeps a whole signature with its keys, and any verdict shown beside a signature is the current one |
| `SignVerifyVisualizer.RunAsWrittenWellFormed` | src/components/visualizers/SignVerifyVisualizer.tsx:9-93 | as written: every reachable state keeps a whole 128-character hex signature with its keys, and nothing but the message before keys exist |
| `SignVerifyDemo.Initial` | src/components/visualizers/SignVerifyDemo.tsx:22-27 | no keys, signature or verdict; both copies equal |
| `SignVerifyDemo.HandleGenerateKeys` | src/components/visualizers/SignVerifyDemo.tsx:51-56 | new keys clear the signature and the verdict |
| `SignVerifyDemo.HandleSign` | src/components/visualizers/SignVerifyDemo.tsx:58-77 | nothing without keys; otherwise the signature, `verifyMsg := message`, no verdict |
| `SignVerifyDemo.HandleVerify` | src/components/visualizers/SignVerifyDemo.tsx:79-99 | nothing without keys or a signature; otherwise the verdict on `verifyMsg` |
| `SignVerifyDemo.EditMessage` | src/components/visualizers/SignVerifyDemo.tsx:184-188 | clears signature and verdict |
| `SignVerifyDemo.EditVerifyMsg` | src/components/visualizers/SignVerifyDemo.tsx:251-254 | clears only the verdict |
| `SignVerifyDemo.GenerateButtonLabel` | src/components/visualizers/SignVerifyDemo.tsx:126 | "Regenerate Keys" iff keys exist |
| `SignVerifyDemo.VerifyButtonLabel` | src/components/visualizers/SignVerifyDemo.tsx:279 | "Verify Signature" iff there is no verdict |
| `SignVerifyDemo.StepKeepsVerdictCurrent` | src/components/visualizers/SignVerifyDemo.tsx:51-254 | every handler that changes keys, signature or copy clears the verdict |
| `SignVerifyDemo.RunKeepsVerdictCurrent` | src/components/visualizers/SignVerifyDemo.tsx:51-254 | a verdict on screen is always the verdict on the current copy, signature and key |
| `SignVerifyDemo.SignThenVerifyValid` | src/components/visualizers/SignVerifyDemo.tsx:58-242 | signed and verified as is: VALID and no TAMPERED badge |
| `SignVerifyDemo.EditedCopyInvalid` | src/components/visualizers/SignVerifyDemo.tsx:79-254 | an edited copy with different bytes: INVALID and the TAMPERED badge |
| `TransactionFlow.Initial` | src/components/visualizers/TransactionFlow.tsx:67-73 | step 1, no wallet, nothing signed |
| `TransactionFlow.HandleGenKeys` | src/components/visualizers/TransactionFlow.tsx:78-84 | new keys, no signature, no verdict, step 2 |
| `TransactionFlow.HandleSign` | src/components/visualizers/TransactionFlow.tsx:86-96 | nothing without keys; otherwise the signature of the message and step 3 |
| `TransactionFlow.HandleVerify` | src/components/visualizers/TransactionFlow.tsx:98-106 | nothing without keys or a signature; otherwise the verdict on the message as it is now |
| `TransactionFlow.EditMessage` | src/components/visualizers/TransactionFlow.tsx:139 | only the text changes; signature and verdict stay |
| `TransactionFlow.SignThenVerifyValid` | src/components/visualizers/TransactionFlow.tsx:86-209 | signed and verified as typed: valid; the sign button is then disabled and Bob's panel live |
| `TransactionFlow.EditAfterSigningInvalid` | src/components/visualizers/TransactionFlow.tsx:98-139 | an edit after signing is checked against the old signature and fails |
| `TransactionFlow.RunValid` | src/components/visualizers/TransactionFlow.tsx:73-209 | step 1..3; a signature comes with keys, step 3 and a lowered flag; a verdict only with a signature |
| `TransactionFlow.RejectedSigningSticks` | src/components/visualizers/TransactionFlow.tsx:86-145 | once signing is rejected, "Signing..." stays up and the button stays disabled |
| `Topics.ParseTag` | src/data/topics.ts:15 | only a string of the `visualizerType` union reads as a tag, and it reads as the tag that prints as it |
| `Topics.ParseTagOfTag` | src/data/topics.ts:15 | every one of the twelve tags reads back as itself, so the tags are distinct |
| `Topics.AllTopics` | src/data/topics.ts:18-154 | there are exactly 8 topics |
| `Topics.Ids` | src/data/topics.ts:20-139 | the ids in order |
| `Topics.IdsDistinct` | src/data/topics.ts:18-154 | no two topics share an id |
| `Topics.TopicsWellFormed` | src/data/topics.ts:27-153 | every topic has three key points and a visualizer that renders |
| `TopicPage.FindFrom` | src/pages/TopicPage.tsx:31 | the first matching position from `from` on, or −1 iff there is none |
| `TopicPage.FindIndex` | src/pages/TopicPage.tsx:31 | the first index whose id equals `topicId`, or −1 iff none does |
| `TopicPage.At` | src/pages/TopicPage.tsx:32-34 | array access yields a topic iff the index is in range |
| `TopicPage.RenderPage` | src/pages/TopicPage.tsx:31-223 | redirect iff no id matches; otherwise the first match, "Module n of m" with 1 ≤ n ≤ m = len, a previous card iff index > 0, the playground link iff it is the last topic |
| `TopicPage.RenderVisualizer` | src/pages/TopicPage.tsx:40-62 | nothing iff 'none', 'keys' or 'signature'; HashDemo iff 'hash-simple' or 'hash-props' |
| `TopicPage.RenderVisualizerDistinguishes` | src/pages/TopicPage.tsx:40-62 | apart from the two hash tags, distinct tags mount distinct components |
| `TopicPage.EveryTopicHasItsPage` | src/pages/TopicPage.tsx:31-62 | every topic's id opens that topic's page, at its own position, with a visualizer |
| `TopicPage.ForwardWalksTheCurriculum` | src/pages/TopicPage.tsx:212-223 | the forward card leads to the next topic, and from the last one to the playground |

## Left out

- Web Crypto internals. SHA-256, ECDSA over P-256, key generation and the SPKI/PKCS #8 exports are not reimplemented. Only the sizes Web Crypto fixes (a 32-byte digest, a 64-byte signature) and the hypotheses `Correct` and `Binding` are assumed.
- Async timing. `setTimeout` delays, `useEffect` re-runs, out-of-order promise completions and stale closures are left out; each handler is one atomic step. This covers the awaits inside the relinking loop of `BlockchainDemo.tsx` and the stale hash in `HashDemo.tsx`.
- The `isVerifying` flags. Verification never rejects, so between atomic steps these flags are always false.
- Randomness. The flip index and the generated key pair are parameters.
- `CryptoFacade.SignMessage`: `sign` is a function of the key and the bytes, so the per-call ECDSA nonce is left out. In the model, re-signing the same message gives the same signature; in the browser each click gives different bytes. The lemmas do not depend on it: `Correct` and `Binding` speak of whatever `sign` returns, and `SignVerifyVisualizer.StaleVerdictAfterResign` assumes only two facts about the two signatures it involves, which an ECDSA signer with fresh nonces also satisfies.
- Floating point. `Math.round(100·diffs/len)` is computed exactly in integers, with halves rounded up as `Math.round` does for non-negative values.
- Animation and layout. This covers the `SignVerifyDemo.tsx` packets, `getCoords`, framer-motion, CSS class choices and `console.error`.
- Presentation-only files. `HashDemo.tsx`, `PublicKeyDemo.tsx`, `Home.tsx`, `Learn.tsx`, `Playground.tsx`, `Layout.tsx`, `App.tsx` and `ThemeToggle.tsx` hold markup, routing and a theme toggle.
- Topic prose. Icons, descriptions, definitions, analogies and usage text are omitted; each key point is its leading label.
- `CaesarCipher.ToUpperCase`: maps only a..z. It is applied only by `processText`, which receives filtered A..Z/space text from the UI.
- `CaesarCipher.UpperCaseWith`: the Unicode case tables are not included. The mapping is a parameter, and the lemmas that need facts about it assume them: it agrees with ASCII on ASCII, and it expands a unit to at most three. It is applied per code unit, so a surrogate pair is mapped as two units rather than as one code point.
- `CaesarCipher.Admissible`: it assumes how browsers enforce `maxLength`: typing never makes a value longer than 10, and a longer stored value can only be edited without growing. The bound `AsciiTypingWithinMaxLength` proves needs ASCII typing; with expanding letters the stored value has no fixed bound.
- `CryptoFacade.Sha256`: `digest` is taken as total, so a rejected `crypto.subtle.digest` is not modelled; every caller of `sha256` gets a digest.
- `Avalanche.HandleFlip`: requires the index to lie inside a non-empty input, as `Math.floor(Math.random() * length)` always does.
- `DigitalSignature.EditMessage`: requires stage 0, because the textarea is disabled at every other stage.
- `EncryptionFlow.NextStep`: requires a step in 0..5, the only values the state ever takes.
- The stuck signing flag. In `TransactionFlow.tsx` a rejected `signMessage` leaves `isSigning` true for good; the model keeps this (`TransactionFlow.RejectedSigningSticks`) rather than correcting it.
- The stale verdict after editing. In `TransactionFlow.tsx` an edit keeps the last verdict on the button until the next click. This is modelled as written.

## Findings

| source | as written | input that shows it | evidently intended | confidence | as-written member | corrected member |
|---|---|---|---|---|---|---|
| src/components/visualizers/CaesarCipherDemo.tsx:154-158 | the mapping row shows code units 65+shift..69+shift with no wrap-around | shift 22: the row shows '[' under E, but `processText('E', 22)` is 'A' | each entry is the shifted letter, (k+shift) mod 26 | not executed; high | `CaesarCipher.MappingRow`, `CaesarCipher.MappingRowAtShift22` | `CaesarCipher.CorrectedMappingRow` |
| src/components/visualizers/HashVsEncryption.tsx:12-23 | `btoa` throws for a code unit above 0xFF after `setHash`, so `encrypted` and `isDecrypted` are not updated | reveal on 'A', then type '€': "Message Restored!" stays open and prints '€' beside the ciphertext of 'A' | every input change resets `isDecrypted`, the ciphertext never belongs to an older input, and the reveal opens only over a ciphertext of the input | not executed; high | `HashVsEncryption.RefreshAsWritten`, `HashVsEncryption.StaleAfterWideInput` | `HashVsEncryption.Refresh`, `HashVsEncryption.GuardedReveal` |
| src/components/visualizers/SignVerifyVisualizer.tsx:27-33 | `handleSign` does not clear `verificationResult` | sign, tamper, verify (rejected), edit the message, sign again: "Tampered / Fake" stays beside an untampered, validly signed message | a new signature clears Bob's verdict, as `tamper` does | not executed; medium | `SignVerifyVisualizer.HandleSignAsWritten`, `SignVerifyVisualizer.StaleVerdictAfterResign` | `SignVerifyVisualizer.HandleSign` |
