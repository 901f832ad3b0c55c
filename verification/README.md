# Verified model of the Hyperpipe worker's cryptography and concurrency

The worker's own arithmetic, encodings and small concurrent protocols, modelled in Dafny and proved
to do what they are for. `dafny verify dfyconfig.toml` checks everything.

| files | what they model |
|---|---|
| `NumberTheory`, `ModArith` | congruences, primes, Fermat's little theorem; `mod`, `modInverse`, `modPow` |
| `AbelianGroup`, `Curve`, `ScalarMult`, `Lift` | the points of y² = x³ + 7 modulo p, the chord and tangent law, double-and-add, x-only lifting |
| `Bytes`, `Text` | big-endian integers, hexadecimal, and the JavaScript string functions used |
| `Keys`, `Schnorr` | public keys, ECDH, Schnorr signatures after BIP 340 |
| `AesTables`, `AesField`, `AesBlock`, `AesKeys`, `AesMethods`, `AesCbc` | the AES-256-CBC cipher of class `AES256CBC` |
| `AesStandard`, `AesDiffusion` | its parts against their definitions in FIPS 197, the cipher octet by octet, and its diffusion |
| `Messages` | shared-secret encryption between two key holders, and the challenge response |
| `LinearRegister`, `Bech32`, `Regrouping`, `Npub` | the Bech32 encoder (BIP 173), bit regrouping, npub and nsec |
| `BchCode`, `BechExamples` | its checksum as a polynomial remainder over GF(32), and two valid strings of the BIP |
| `Executions`, `TopicCaching`, `MirrorScheduling`, `RelayMirrorHooks`, `WriterPool`, `Challenges`, `Handshake` | protocols with a step at every `await`, timer and callback; results hold for every interleaving |
| `ProbePeers` | the choice and order of peers to probe |

Loops and objects that the code updates in place are methods and classes, each proved equal to a
specification function; the results are proved about those functions. Exceptions and nulls are values
of `Result` and `Option`.

Assumptions are explicit `requires` clauses. `Curve.GoodCurve` says that p is an odd prime, that no
curve point has y = 0, and that the addition law is associative; `Keys.GoodParams` adds p mod 4 = 3, a
generator of order n, and that p and n fit in 32 bytes; `Prime(c.n)` is asked for where it is needed.
All hold of secp256k1; `Keys.GeneratorOnCurve` computes what can be computed with its constants. The tagged hash, UTF-8 and
base64 are arbitrary functions, the last two with their round-trip contracts. Randomness and clocks
are parameters.

## Model

| member | source | states |
|---|---|---|
| `ModArith.Mod` | pure-secp256k1.js:20 | the helper, written with truncating operators, is the non-negative remainder also for negative numbers |
| `ModArith.ModInverseLoop` | pure-secp256k1.js:22-34 | extended Euclid terminates and returns the one canonical inverse; it returns exactly when a and m have no common factor and, for a negative a, Euclid's algorithm on -a and m makes an odd number of divisions; so for a >= 0 it throws exactly on a common factor |
| `ModArith.NegativeArguments` | pure-secp256k1.js:22-34 | the numbers whose inverse is found for every modulus with which they have no common factor are exactly those >= 0, and -2 |
| `ModArith.ModPowLoop` | pure-secp256k1.js:36-45 | square-and-multiply is the power modulo m, for every exponent >= 0 and m > 1; for m = 1 it is 0, but 1 for exponents <= 0 |
| `Curve.NegateClosed` | pure-secp256k1.js:67-70 | the negative of a curve point is a canonical curve point |
| `Curve.DoubleClosed` | pure-secp256k1.js:72-81 | the double of a curve point is on the curve, for any modulus, whenever the inverse exists |
| `Curve.AddClosed` | pure-secp256k1.js:83-96 | the sum of two curve points is infinity or a canonical curve point, for any modulus, whenever the inverse exists |
| `Curve.AddIsChord` | pure-secp256k1.js:83-96 | P, Q and -(P + Q) are on one line, and the abscissas add up to the square of its slope |
| `Curve.DoubleIsTangent` | pure-secp256k1.js:72-81 | the same for the tangent at P |
| `Curve.DoubleFails` | pure-secp256k1.js:72-81 | over an odd prime, doubling throws exactly at points with y = 0 |
| `Curve.AddFails` | pure-secp256k1.js:83-96 | over an odd prime, addition throws exactly when it doubles such a point |
| `Curve.AddCommutes` | pure-secp256k1.js:83-96 | addition is commutative, failures included |
| `Curve.AddNegate` | pure-secp256k1.js:67-96 | P + (-P) is the point at infinity |
| `Curve.CurveIsAbelian` | pure-secp256k1.js:48-96 | with associativity assumed, the points form an abelian group |
| `Curve.EquationMeans` | pure-secp256k1.js:8-17 | the curve is y^2 = x^3 + 7 |
| `ScalarMult.MultiplyLoop` | pure-secp256k1.js:98-112 | the loop with its early returns and its extra last doubling computes the recursive form, exceptions included |
| `ScalarMult.MultiplyClosed` | pure-secp256k1.js:98-112 | every multiple that is returned is a curve point, for any modulus |
| `ScalarMult.MultiplyIsTimes` | pure-secp256k1.js:98-112 | on a good curve double-and-add never throws and is k-fold addition |
| `AbelianGroup.DoubledTimes` | pure-secp256k1.js:98-112 | one step of double-and-add, in any abelian group |
| `Bytes.BytesToBigInt` | pure-secp256k1.js:119-125 | the loop reads the bytes as a big-endian number |
| `Bytes.BigIntToBytes` | pure-secp256k1.js:127-135 | the loop writes the low bytes, most significant first |
| `Bytes.IntRoundTrip` | pure-secp256k1.js:119-135 | reading back what was written gives the number modulo 256^length |
| `Bytes.BytesRoundTrip` | pure-secp256k1.js:119-135 | writing back what was read gives the bytes |
| `Bytes.ByteAt` | pure-secp256k1.js:127-135 | byte i of a written number is its digit of weight 256^(length - 1 - i) |
| `Lift.LiftSound` | pure-secp256k1.js:159-169 | what liftX returns is the curve point with that abscissa and even ordinate |
| `Lift.LiftComplete` | pure-secp256k1.js:159-169 | every curve point with even ordinate is found from its abscissa |
| `Lift.LiftIff` | pure-secp256k1.js:159-169 | liftX returns null exactly when x >= p or x^3 + 7 is not a square |
| `Lift.LiftEither` | pure-secp256k1.js:159-169 | on the abscissa of any curve point it returns the point or its negative, whichever is even |
| `Lift.RootOfSquare` | pure-secp256k1.js:162-165 | the power (p+1)/4 of a square is one of its roots when p mod 4 = 3, by Fermat's little theorem |
| `Text.ParseHexLoop` | pure-secp256k1.js:503-509 | the loop of hexToBytes over UTF-16 code units, with parseInt's lenient reading of each pair |
| `Text.ParseHexValid` | pure-secp256k1.js:503-509 | on hexadecimal text the lenient reading is the usual one |
| `Text.PairIsParsed` | pure-secp256k1.js:503-509 | what a pair of characters gives is parseInt(pair, 16) as ECMAScript defines it for all texts, NaN stored as 0 and other numbers modulo 256 |
| `Text.HexDigits` | pure-secp256k1.js:503-509 | the hexadecimal digits of both cases and their values |
| `Text.UnitsStandFor` | pure-secp256k1.js:503-509 | the code units of a character are the character or the surrogates that stand for it |
| `Text.SpacesOfStandard` | nostr-utils.js:112-118 | the white space that trim removes is that of ECMAScript, code point by code point |
| `Text.TrimAround` | nostr-utils.js:112-118 | trim removes all white space around a text and nothing else |
| `Keys.PublicKeyValue` | pure-secp256k1.js:512-532 | getPublicKey succeeds exactly for 0 < k < n |
| `Keys.PublicKeyRoundTrip` | pure-secp256k1.js:525-577 | a key that getPublicKey writes, compressed or not, is parsed as exactly k*G |
| `Keys.ParseValue` | pure-secp256k1.js:548-577 | x-only keys and keys with either prefix are parsed as k*G or its negative |
| `Keys.ParseIff` | pure-secp256k1.js:548-577 | a point of the curve is read from exactly three texts: its abscissa after 02 or 03 by the parity of the ordinate, its abscissa alone if the ordinate is even, both coordinates after 04 |
| `Keys.SecretIff` | pure-secp256k1.js:535-592 | getSharedSecret returns a secret exactly for a valid scalar and a key that is one of these texts of a curve point whose multiple is not infinity, and the secret is its abscissa; it never returns for an uncompressed key off the curve |
| `Keys.SharedSecretValue` | pure-secp256k1.js:535-592 | the shared secret is the abscissa of (a*b)*G, whatever form the other key is in |
| `Keys.EcdhAgreement` | pure-secp256k1.js:535-592 | both sides get the same secret although the sign of y was dropped; it exists when n is prime |
| `Keys.GeneratorOnCurve` | pure-secp256k1.js:10-17 | for the numbers in the code, p mod 4 = 3, n < p and the generator is on the curve |
| `Schnorr.SignSucceeds` | pure-secp256k1.js:595-641 | signing succeeds exactly for a valid key and a nonzero nonce |
| `Schnorr.SignedNonce` | pure-secp256k1.js:595-641 | the first half of a signature is the abscissa of k*G, for the nonce hash of BIP 340 over the masked even scalar, the public abscissa and the message |
| `Schnorr.SameNonceIff` | pure-secp256k1.js:595-641 | two signatures of one key have the same first half exactly when their nonce hashes are equal or opposite modulo n |
| `Schnorr.EvenScalarPoint` | pure-secp256k1.js:612-628 | the flips d to n-d and k to n-k land on the even point that liftX finds |
| `Schnorr.SignedPoint` | pure-secp256k1.js:636-685 | s*G - e*P, for s = k + e*d modulo n, is k*G |
| `Schnorr.SchnorrComplete` | pure-secp256k1.js:594-697 | every signature that sign returns verifies, for every key, message, auxiliary value and hash function |
| `Schnorr.VerifyEquation` | pure-secp256k1.js:643-696 | verify accepts exactly a 64-byte signature under a key of 32 bytes, or of 33 with prefix 02 or 03, with s < n and s*G = R + e*P for the lifted points, e being the challenge hash over the first half, the public abscissa and the message |
| `Schnorr.SignatureUnique` | pure-secp256k1.js:643-696 | at most one signature per first half is accepted for a message and a key |
| `Schnorr.MessageBound` | pure-secp256k1.js:643-696 | a signature accepted for one message is accepted for another exactly when the challenge hashes of both agree modulo n |
| `AesTables.SBoxInverse` | pure-secp256k1.js:175-198 | the S-box is a permutation and the written-out inverse is its inverse on both sides |
| `AesTables.BuildInvSBox` | pure-secp256k1.js:194-198 | the loop of the constructor builds that inverse |
| `AesField.GMul` | pure-secp256k1.js:205-215 | the shift-and-add loop is the product of polynomials modulo x^8 + x^4 + x^3 + x + 1 |
| `AesField.MatricesInverse` | pure-secp256k1.js:317-343 | the two MixColumns matrices are inverse over GF(2^8) |
| `AesStandard.ProductModulo` | pure-secp256k1.js:205-215 | the product is the product of polynomials less a multiple of x^8 + x^4 + x^3 + x + 1, for all octets |
| `AesStandard.SBoxDefinition` | pure-secp256k1.js:175-192 | the S-box is the affine transformation of the inverse in the field |
| `AesStandard.RoundConstants` | pure-secp256k1.js:201 | the round constants are the powers of x |
| `AesKeys.ExpandKey` | pure-secp256k1.js:218-254 | the loops fill the schedule with the words of the recurrence |
| `AesKeys.ScheduleInjective` | pure-secp256k1.js:218-254 | any eight consecutive words of the schedule determine the key |
| `AesStandard.RotWordOctets` | pure-secp256k1.js:234 | the rotation moves every octet of a word one place to the left |
| `AesStandard.SubWordOctets` | pure-secp256k1.js:235-238 | the substitution replaces every octet of a word by its S-box value |
| `AesStandard.XorWordOctets` | pure-secp256k1.js:250 | words are added octet by octet |
| `AesStandard.ExpansionExample` | pure-secp256k1.js:218-254 | the words 8 to 16 of the example in appendix A.3 of FIPS 197 |
| `AesStandard.RoundKeysCover` | pure-secp256k1.js:218-254 | there are 15 round keys and they hold the 60 words of the schedule in order |
| `AesStandard.KeyComesFirst` | pure-secp256k1.js:226-229 | the first two round keys are the key itself |
| `AesMethods.ShiftRowsOf` | pure-secp256k1.js:291-302 | the loops over the matrix compute the row shift |
| `AesMethods.InvShiftRowsOf` | pure-secp256k1.js:304-315 | the loops over the matrix compute the opposite row shift |
| `AesBlock.ShiftRowsInverse` | pure-secp256k1.js:291-315 | the two row shifts undo each other |
| `AesMethods.MixColumnsOf` | pure-secp256k1.js:317-329 | the loop mixes every column |
| `AesMethods.InvMixColumnsOf` | pure-secp256k1.js:331-343 | the loop unmixes every column |
| `AesBlock.MixColumnsInverse` | pure-secp256k1.js:317-343 | mixing and unmixing the columns undo each other |
| `AesMethods.GetRoundKey` | pure-secp256k1.js:352-362 | four words of the schedule, octet by octet |
| `AesMethods.EncryptBlockOf` | pure-secp256k1.js:365-388 | the rounds in place compute EncryptBlock |
| `AesMethods.DecryptBlockOf` | pure-secp256k1.js:390-414 | the inverse rounds in place, with the table that the constructor built, compute DecryptBlock |
| `AesBlock.BlockInverse` | pure-secp256k1.js:365-414 | for any round keys, each of the two block functions undoes the other: the cipher is a permutation |
| `AesBlock.AddRoundKeyKey` | pure-secp256k1.js:345-349 | on the zero block the round key itself is left, and different round keys give different states |
| `AesBlock.EveryKeyMatters` | pure-secp256k1.js:365-388 | for every block and every round, two expanded keys that differ in the key of this round only give different ciphertexts |
| `AesStandard.CipherEquations` | pure-secp256k1.js:365-388 | the cipher octet by octet: 13 rounds by the equation 2S + 3S + S + S + k over the shifted rows, and a last one without mixing |
| `AesDiffusion.RoundSpread` | pure-secp256k1.js:365-388 | a round turns a difference in one octet into a difference in exactly the four octets of one column |
| `AesDiffusion.TwoRoundsSpread` | pure-secp256k1.js:365-388 | after two rounds all sixteen octets differ, for any round keys |
| `AesCbc.PadMessage` | pure-secp256k1.js:422-433 | block count and padding octets: 1 to 16 of them, each holding their number |
| `AesCbc.CbcEquation` | pure-secp256k1.js:417-452 | every block of the ciphertext is the encryption, under the expanded key, of the block of the padded message added to the previous one or to the iv |
| `AesCbc.EncryptMessage` | pure-secp256k1.js:417-452 | the loop computes Encrypt, with its errors |
| `AesCbc.DecryptMessage` | pure-secp256k1.js:454-480 | the loop computes Decrypt, with its errors |
| `AesCbc.CbcRoundTrip` | pure-secp256k1.js:417-480 | chaining is undone, for every invertible block cipher |
| `AesCbc.RoundTrip` | pure-secp256k1.js:417-480 | decrypt(encrypt(m)) = m for every message, 32-byte key and 16-byte iv |
| `AesCbc.IvMatters` | pure-secp256k1.js:417-452 | two ivs give the same ciphertext of a message exactly when they are equal |
| `AesCbc.UnpadValue` | pure-secp256k1.js:477-479 | what is left when the last octet says k, also when there are not k octets |
| `AesCbc.RoundTripBack` | pure-secp256k1.js:454-480 | encrypt(decrypt(c)) = c exactly when the plaintext ends in a well-formed padding, which decrypt does not test |
| `Text.SplitPieces` | challenge-manager.mjs:332 | the pieces of split join to the text and contain no separator |
| `Text.SplitOnce` | challenge-manager.mjs:332 | parts that do not contain the first character of the separator are split exactly between them |
| `Text.FirstPieces` | challenge-manager.mjs:332 | the first two pieces of a text reach to the first separator and from there to the next one or the end |
| `Messages.PublicKeyHexValue` | challenge-manager.mjs:122-126 | 64 digits, that with the prefix 02 are a public key of the private one |
| `Messages.SameKey` | challenge-manager.mjs:284-300 | the two ends derive the same 32-byte key from each other's abscissas |
| `Messages.DerivedKey` | challenge-manager.mjs:284-300 | its octets are those of the abscissa of the product of the two scalars and the generator |
| `Messages.SameKeyIff` | challenge-manager.mjs:284-300 | two pairs of ends derive the same key exactly when their product points have the same abscissa |
| `Messages.KeyIff` | challenge-manager.mjs:284-300 | deriveSharedKey returns exactly for non-empty texts, a valid scalar and the abscissa of a curve point, and what it returns then |
| `Messages.MissingIff` | challenge-manager.mjs:284-287 | its own error is given for empty texts and in no other case |
| `Messages.SealedSound` | challenge-manager.mjs:302-320 | what encryptWithSharedSecret makes, decryptWithSharedSecret reads at the other end; both fields are non-empty and without a question mark |
| `Messages.SealedUnderAbscissa` | challenge-manager.mjs:302-312 | the ciphertext is the encryption of the text under the octets of the abscissa of the product point, and the iv is passed on |
| `Messages.MessageRoundTrip` | challenge-manager.mjs:284-338 | decryptSharedSecretFromString at one end returns what encryptSharedSecretToString was given at the other, for every message and iv; the string is the ciphertext, ?iv= and the iv |
| `Messages.PayloadRead` | challenge-manager.mjs:327-338 | of any payload exactly the text before the first mark and from there to the next mark or the end are read, and it is refused when one of them is empty or missing |
| `Messages.HonestResponseMatches` | challenge-manager.mjs:163-198 | a client that encrypts a message to the relay passes verifyChallenge exactly when the message is the challenge |
| `LinearRegister.RunSplit` | nostr-utils.js:37-48 | what a linear register held and what enters it contribute independently |
| `Bech32.Polymod` | nostr-utils.js:37-48 | the loops with the five generators compute the register |
| `Bech32.HrpExpandLoop` | nostr-utils.js:50-60 | the loops push the high parts of the UTF-16 code units, a zero, the low parts |
| `Bech32.CreateChecksumLoop` | nostr-utils.js:62-71 | the loops compute the six checksum symbols |
| `Bech32.EncodeLoop` | nostr-utils.js:73-81 | the loop spells part, separator, data and checksum, for data of any 32-bit values |
| `Bech32.StepInjective` | nostr-utils.js:40-46 | on 30-bit registers a step loses nothing |
| `Bech32.ChecksumChecks` | nostr-utils.js:62-71 | the polymod of the expanded part, the data and the checksum is 1 |
| `Bech32.BurstDetected` | nostr-utils.js:37-81 | in strings of any length, changes within six consecutive symbols make the check fail |
| `Bech32.SingleChangeDetected` | nostr-utils.js:37-81 | in particular any change of one data or checksum symbol |
| `Bech32.PartChangeDetected` | nostr-utils.js:50-71 | replacing a code unit of the human-readable part by one that differs in its high or its low part only makes the check fail |
| `Bech32.EncodeAccepted` | nostr-utils.js:73-81 | the text is accepted by a decoder and read as the data and the checksum, in one way only |
| `Bech32.EncodeInjective` | nostr-utils.js:73-81 | different data give different text |
| `Bech32.CorruptionRefused` | nostr-utils.js:73-81 | text that differs from an encoding within six consecutive characters is refused |
| `BchCode.CheckIsRemainder` | nostr-utils.js:37-48 | the register is the remainder of long division over GF(32) by x^6 + 29x^5 + 22x^4 + 20x^3 + 21x^2 + 29x + 18, the polynomial of BIP 173 |
| `BchCode.ChecksIffRemainderOne` | nostr-utils.js:37-71 | a string checks exactly when its symbols leave the remainder 1 |
| `BchCode.UnitParts` | nostr-utils.js:50-60 | the two parts of a code unit are its quotient and remainder by 32 |
| `BechExamples.ShortText` | nostr-utils.js:73-81 | the encoding of no data for "a" is a12uel5l |
| `BechExamples.LongText` | nostr-utils.js:73-81 | the encoding of the symbols 0 to 31 for "abcdef", which shows the whole alphabet |
| `Regrouping.ConvertBits` | nostr-utils.js:83-105 | the loop, with its 32-bit shifts, for any numbers and sizes with which it returns; when from and to are positive with sum at most 32 the wrapping accumulator gives the result of the unbounded specification, null included; for to = 0 the result is empty or null |
| `Regrouping.StrictIffPadded` | nostr-utils.js:83-105 | for all group sizes, strict regrouping of w gives d exactly when padded regrouping of d gives w with padding shorter than a group of d |
| `Regrouping.FiveBitRoundTrip` | nostr-utils.js:83-105 | bytes survive the way to five-bit words and back |
| `Npub.HexToTextLoop` | nostr-utils.js:138-165 | validation, regrouping and encoding compute the specification, null included |
| `Npub.TextDecodes` | nostr-utils.js:138-165 | the text decodes to the encoded bytes and to no others |
| `Npub.HexDecodes` | nostr-utils.js:112-165 | a result is given exactly for non-empty hexadecimal of even length, and decodes to its bytes |
| `Npub.SameTextIff` | nostr-utils.js:112-165 | valid inputs give the same text exactly when they differ only in letter case and surrounding white space |
| `Npub.BytesRoundTripHex` | nostr-utils.js:112-131 | what bytesToHex writes, hexToBytes reads back, except that it throws on the text of the empty byte string |
| `Npub.HexRoundTripBytes` | nostr-utils.js:112-131 | what hexToBytes accepts, bytesToHex writes again in lower case and without surrounding white space |
| `TopicCaching.ReachableOk` | hyperdrive-manager.mjs:47-97 | in every reachable state refCount is the acquisitions begun minus those released, an entry has a timer exactly when that is 0, and a key has at most one live join |
| `TopicCaching.NoEarlyEviction` | hyperdrive-manager.mjs:47-97 | from the beginning of an acquisition to its release its join stays alive and in the cache |
| `TopicCaching.LastUsedIs` | hyperdrive-manager.mjs:60-83 | lastUsed is the time of the last acquisition or release of the topic |
| `TopicCaching.ReleaseFindsOwnEntry` | hyperdrive-manager.mjs:74-83 | a release used once meets the entry it was acquired on, never a re-created one, and the clamp at 0 is never needed |
| `TopicCaching.FireEvicts` | hyperdrive-manager.mjs:85-97 | a timer that fires always finds its entry unused and evicts it |
| `TopicCaching.ExtraReleaseHarmless` | hyperdrive-manager.mjs:74-83 | a further call of a release function keeps the invariant exactly when nobody holds the topic |
| `TopicCaching.ExtraReleaseDestroysIff` | hyperdrive-manager.mjs:60-97 | after a further call of a release function a topic can come to be destroyed under somebody who waits for it or uses it exactly when it was held, and by none whose acquisition had failed |
| `TopicCaching.TopicCache.BeginAcquire` | hyperdrive-manager.mjs:47-68 | the code before the await makes the Begin step |
| `TopicCaching.TopicCache.ReleaseHandle` | hyperdrive-manager.mjs:74-83 | releaseTopic makes the Release step |
| `TopicCaching.FailedPinsTopic` | hyperdrive-manager.mjs:60-71 | after an await that fails the topic is never evicted: its caller has no release function, and the count stays at least 1 |
| `TopicCaching.TopicCache.FireTimer` | hyperdrive-manager.mjs:85-97 | the eviction callback makes the Fire step |
| `MirrorScheduling.StartsIff` | mirror-sync-manager.mjs:61-64 | the steps counted as starts of a run are exactly those after which one more body is active |
| `MirrorScheduling.AlwaysOneRun` | mirror-sync-manager.mjs:56-97 | at most one run is active, and pending only while one is |
| `MirrorScheduling.TriggerServed` | mirror-sync-manager.mjs:56-97 | a trigger is followed by a run that starts no earlier, or one is still pending, or the mirror was stopped |
| `MirrorScheduling.IdleMeansServed` | mirror-sync-manager.mjs:56-97 | when the scheduler is idle and not stopped, every trigger has been served |
| `MirrorScheduling.NoMoreStartsThanTriggers` | mirror-sync-manager.mjs:61-97 | there are never more runs than triggers |
| `MirrorScheduling.StoppedIsQuiet` | mirror-sync-manager.mjs:61-97 | after stop no run begins |
| `MirrorScheduling.Mirror.BeginRun` | mirror-sync-manager.mjs:61-64 | runMirror up to its first await makes the Trigger step |
| `MirrorScheduling.Mirror.EndRun` | mirror-sync-manager.mjs:90-96 | the finally block makes the Finish step |
| `RelayMirrorHooks.OneTimerOrRun` | index.js:6081-6214 | timer and inflight are never both set, at most one run is active, and a pending update has a timer or a run to wait for |
| `RelayMirrorHooks.TimerFindsWork` | index.js:6183-6192 | a timer that fires finds a pending update and no active run, and starts one exactly when the manager is started |
| `RelayMirrorHooks.UpdateServed` | index.js:6093-6195 | an update is followed by a run that starts no earlier, or still waits, unless the hooks are disposed or a step dropped it because the manager was stopped at that step |
| `RelayMirrorHooks.IdleMeansServed` | index.js:6093-6195 | with no timer and no run, before disposal, every update that no step dropped has been served |
| `RelayMirrorHooks.FateOfLastUpdate` | index.js:6093-6195 | the last update is never both served and dropped, and until disposal it waits exactly as long as it is neither |
| `RelayMirrorHooks.DisposedIsQuiet` | index.js:6201-6213 | after disposal nothing is scheduled and nothing starts |
| `RelayMirrorHooks.ServedIffNotDropped` | index.js:6093-6195 | exactly when an update is lost: once the hooks are idle, the last update has been served if and only if it did not come to a stopped manager with none waiting, the timer did not fire and no run ended with it waiting while the manager was stopped |
| `RelayMirrorHooks.Hooks.Schedule` | index.js:6178-6195 | scheduleSync makes the scheduling step |
| `RelayMirrorHooks.Hooks.BeginSync` | index.js:6093-6099 | runSync up to its first await makes the RunSync step |
| `RelayMirrorHooks.Hooks.OnTimer` | index.js:6183-6192 | the timer callback makes the TimerFires step |
| `RelayMirrorHooks.Hooks.EndSync` | index.js:6169-6175 | the finally block makes the Finish step |
| `RelayMirrorHooks.Hooks.Unsubscribe` | index.js:6201-6213 | the unsubscribe function makes the Dispose step |
| `WriterPool.Prune` | index.js:2879-2886 | exactly the entries with a core and a secret that have not expired are kept |
| `WriterPool.PruneAppend` | index.js:2879-2886 | they keep their order and their repetitions |
| `WriterPool.OneCallPerKey` | index.js:3200-3209 | at most one call per pool key is in the locked section, and the lock is held exactly while one is |
| `WriterPool.OnlyForOpenRelays` | index.js:3220-3227 | in every run writers are provisioned only for a relay that is open |
| `WriterPool.EnterIff` | index.js:3200-3273 | a call provisions exactly when no other call for the key is under way, the relay is open and the pool lacks writers, and what it does otherwise |
| `WriterPool.CompletionAppends` | index.js:3229-3338 | a completed provisioning leaves the unexpired entries of the cache as it then is, followed by exactly the entries it returns, and frees the lock |
| `WriterPool.TargetReached` | index.js:3233-3300 | in every case a call returns as many writers as it set out to get less the unusable answers; that is the requested number, and without one the pool then has at least its target size less the unusable answers |
| `WriterPool.AnswersKept` | index.js:3273-3300 | a call that has not failed holds, or has returned, exactly the entries that its usable answers make, in order |
| `WriterPool.ReturnedDisjoint` | index.js:3273-3337 | in runs whose provisioner gives no core twice, the lists of different calls share none and no list repeats one |
| `WriterPool.PoolsDisjoint` | index.js:3273-3337 | in such runs no core is in two pools |
| `WriterPool.PoolComplete` | index.js:3280-3300 | every entry of a pool has the core, the secret and the time of issue of an answer of the provisioner, and expires one lifetime after it, or never |
| `WriterPool.NoEntryLost` | index.js:3209-3347 | an entry stays in its pool until a call for the key finds it expired, however calls interleave |
| `WriterPool.OpenJoinPools.BeginCall` | index.js:3200-3273 | the section before the first await makes the Enter step |
| `WriterPool.OpenJoinPools.ResumeCall` | index.js:3275-3337 | the rest of the loop body, and after the last answer the end, makes the Provisioned step |
| `WriterPool.OpenJoinPools.FailCall` | index.js:3338-3347 | an exception in the loop makes the Failed step |
| `ProbePeers.Dedupe` | index.js:1155-1163 | the values without repetition |
| `ProbePeers.DedupeOrder` | index.js:1155-1163 | they keep the order of their first occurrences |
| `ProbePeers.SamePeerIff` | index.js:1149-1153 | a value names a peer exactly when it is 64 hexadecimal digits within white space, and two values name the same peer exactly when they spell the same bytes |
| `ProbePeers.MergedPeers` | index.js:1149-1179 | the merged list names every valid peer of the three inputs once |
| `ProbePeers.MergedInOrder` | index.js:1172-1179 | topic peers first, then hosts, then replicas |
| `ProbePeers.CompareTotal` | index.js:1221-1230 | the eight-key comparison is a strict total order on candidates with different positions |
| `ProbePeers.SortDetermined` | index.js:1221-1230 | whatever algorithm sort uses, there is exactly one result |
| `ProbePeers.CandidatesAreDistinctPeers` | index.js:1232-1234 | the result has the smaller of limit and number of peers, all different and valid |
| `ProbePeers.TopicFirstDemotedLast` | index.js:1194-1234 | topic peers come before all others; peers outside the topic with a recent failure and no recent success after all others |
| `ProbePeers.BetterPeersFirst` | index.js:1185-1234 | the same for all five levels of the tiers |
| `ProbePeers.TierThenSuccess` | index.js:1195-1225 | inside a tier the later success comes first, and the flag comparisons never decide |
| `ProbePeers.CandidateOrder` | index.js:1185-1234 | every candidate precedes the later ones: by level, later success, no recent failure, shorter known round trip, later observation, earlier place |
| `ProbePeers.CutOrder` | index.js:1185-1234 | and every peer that did not make the cut |
| `ProbePeers.CandidateCount` | index.js:1232-1234 | at most twelve peers, or as many as were asked for, but at least one |
| `Challenges.RetrievalsCounted` | challenge-manager.mjs:61-82 | the attempts counter, up to five, is the number of times an entry was returned |
| `Challenges.AtMostFiveRetrievals` | challenge-manager.mjs:24-90 | over any run a stored challenge is returned at most five times |
| `Challenges.RetrievedInTime` | challenge-manager.mjs:24-90 | and only for its own key and at most five minutes after it was stored |
| `Challenges.RetrievedIff` | challenge-manager.mjs:61-82 | a verification is given a challenge exactly when it is stored for the key, is at most five minutes old and was returned fewer than five times |
| `Challenges.StoredAs` | challenge-manager.mjs:44-54 | the challenge of a key is the one last stored for it, with the time at which it was stored |
| `Challenges.ForgottenIff` | challenge-manager.mjs:24-90 | exactly which steps take a challenge away from its key |
| `Challenges.AtMostFiveTokens` | challenge-manager.mjs:163-200 | one challenge yields at most five tokens, however suspended verifications interleave |
| `Challenges.NeverRetrievedAfterToken` | challenge-manager.mjs:163-200 | a challenge for which a token was issued is never retrieved again |
| `Challenges.TokenIffMatched` | challenge-manager.mjs:163-198 | a suspended verification brings a token exactly when the response it began with matches the challenge its key had then, whatever happens in between |
| `Handshake.ResponseAcceptedIff` | challenge-manager.mjs:163-203 | so a client that encrypts a message to the relay gets a token exactly when the message is the challenge last stored for it, in every run |
| `Challenges.SecondTokenIff` | challenge-manager.mjs:163-203 | a second token can follow exactly when, at the moment when one is issued, another verification is suspended on the challenge whose response matches it too |
| `Challenges.FiveTokensPossible` | challenge-manager.mjs:163-203 | the bound of five is reached for every key, challenge and matching response |
| `Challenges.BudgetShrinks` | challenge-manager.mjs:163-203 | the verifications then suspended bound the tokens still to come |
| `Challenges.NewerChallengeLostIff` | challenge-manager.mjs:198-200 | accepting a response deletes a challenge other than the one it answers exactly when one was stored for the same key while the verification was suspended, and is still there |
| `Challenges.ChallengeStore.StoreChallenge` | challenge-manager.mjs:44-54 | store makes the Store step |
| `Challenges.ChallengeStore.RetrieveChallenge` | challenge-manager.mjs:61-82 | retrieve returns and leaves what the specification says, counting on the entry object that callers share |
| `Challenges.ChallengeStore.RemoveExpired` | challenge-manager.mjs:24-34 | the cleanup loop removes exactly the expired entries |

## Left out

- Conformance with FIPS 197 as a whole: the state is laid out row by row (pure-secp256k1.js:257-276) while round keys are added in linear order (pure-secp256k1.js:345-362), so that the cipher as a whole is another one. Tables, products and key expansion are proved to be the standard ones, and `AesStandard.CipherEquations` says what the cipher computes. The four terms of a mixed octet are added in rotated order, which does not change their sum.
- Proofs that the secp256k1 numbers are prime, that the addition law is associative, that the generator has order n, and anything about SHA-256: hypotheses or arbitrary functions.
- Keys.ParseValue: uncompressed keys are those of curve points; the code does not reduce the coordinates of others.
- Messages.MessageRoundTrip: UTF-8 and base64 come with their contracts, not with their code; plaintexts are strings without lone surrogates.
- Regrouping.ConvertBits: for from = 0, and for from + to above 32, where the accumulator loses bits, says nothing of the result unless to = 0; with to = 0 and a first value that is accepted the code does not return.
- TopicCaching.TopicCache.BeginAcquire: entries are values in a map that is reassigned, so that two references to one entry object are not modelled; after the await the code reads such a reference for logging only.
- WriterPool.OpenJoinPools.ResumeCall: entries carry core, secret and times; lease identifiers, checkpoints and the rest of the reply are copied by the code and not modelled.
- ProbePeers.CompareTotal: numbers are reals, without floating-point rounding; values that are not finite numbers are absent.
- The profile lookup, the fast-forward checkpoint and the target-only mode of the writer pool, which come before the lock.
- What a mirror run does, whether it ends, and how long timers wait: the protocols say what happens at each step, not when.
- One mirror per key (mirror-sync-manager.mjs:35-135), no entry of the closed-join pool claimed twice (index.js:3611-3623) and no queued writer reference lost (index.js:2018-2025): the code does not promise them across its awaits.
- signEvent, verifySignature and getPublicKey of NostrUtils, which call an outside library.
- The rest of index.js, Hyperdrive, Hyperswarm, Corestore, Autobase, the gateway, files and media.
