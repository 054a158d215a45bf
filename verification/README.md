# Verified model of the vault's cryptography and of its access state

Two parts of the vault are modelled here in Dafny.

**The cryptographic crate** (`crates/crypto/src`), written without dependencies over machine
words: the field modulo 2^255 - 19 in 51-bit limbs, Poly1305 in 26-bit limbs, 64-bit big
integers, X25519, Ed25519 and ECDSA on top of them, the AES block cipher with its modes and
AEADs (GCM, OCB, ChaCha20-Poly1305), the SHA buffers and padding, DER and certificate chains,
inflate, and the sealed item format. Machine words are newtypes, so every sum, difference,
product and shift is proved to stay in its word; loops and in-place updates are methods over
arrays and sequences, proved against definitions on integers, bit strings and byte strings.

**The access state** (`src/access`): capabilities in an append-only journal that is purged,
compacted and repaired; field-bound acquisition tokens; and the access-request register. Each
operation runs under a lock, so what is proved speaks of every sequence of operations and, for
the journal, of a write cut at any byte.

## How it is laid out

| files | what they hold |
|---|---|
| Words, Bytes, Utf8, Limbs, Monoid, Linear, Congruence, Options | words and masks, byte strings, text, limb sums, repeated application, exclusive-or groups, congruences |
| Fermat, Inverses | Fermat's little theorem, and why the powers computed are inverses |
| Field25519, X25519, Montgomery, MontgomeryGroup, Ed25519, Edwards | the limb field, the ladder, the signature scheme, and the point formulas against the affine laws |
| Bignum, Ecdsa, Weierstrass | big integers, verification, and the Jacobian formulas against the chord-and-tangent law |
| Poly1305, ChaCha, Gcm, Ocb | one-time authenticators and AEADs |
| Galois, Circulant, Rijndael, Aes, Modes | GF(2^8), the column mix, the rounds, AES, CFB and key wrap |
| Huffman, Reading, Deflate, Inflate, Zlib | prefix codes, unique reading, the deflate format, the decoder, the wrapper |
| Sha, Sealed, Der, Calendar, Chain | hash buffers, sealed items, DER, certificate times, chain walk |
| Journal, CapabilityStore, Acquisition, Requests | the access state |

`dafny verify dfyconfig.toml` checks everything.

## What is taken as given

The group laws of the curves in affine form (associativity, commutativity, chord and tangent,
completeness of the Edwards law, the order of the base points), the primality of the moduli,
collision-freeness where a statement asks for it, and the ChaCha20 block and SHA compression
functions enter as parameters with their laws as hypotheses. What the code's projective
formulas and inversions need beyond that is derived: `Weierstrass.SoundHolds`,
`Edwards.FormulaIsGroupLaw` and `MontgomeryGroup.LadderLawsHold` give the hypotheses of the
Ecdsa, Ed25519 and X25519 theorems about point arithmetic, and `Fermat.Inverse` makes the
power p - 2 an inverse. Clocks, random bytes, the vault's items and the file system's success
are parameters of the operations.

## Model

| member | source | states |
|---|---|---|
| Words.AndRange | crates/crypto/src/field.rs:36-66 | masking a word with the bits from lo up to hi keeps exactly those bits, so the limb code's masks are remainders and quotients by powers of two |
| Field25519.Carry | crates/crypto/src/field.rs:69-87 | limbs below 2^54 come out carried, limb 0 with a small excess, and the residue modulo 2^255 - 19 is unchanged |
| Field25519.Add | crates/crypto/src/field.rs:89-91 | the residue of the result is the sum of the residues and the limbs stay in bounds |
| Field25519.Sub | crates/crypto/src/field.rs:95-110 | adding 4p first keeps every limb from going below zero, and the residue is the difference |
| Field25519.Mul | crates/crypto/src/field.rs:116-141 | column products folded by 19 never overflow their words and the residue is the product |
| Field25519.ToBytes | crates/crypto/src/field.rs:36-66 | the 32 bytes are the little-endian encoding of the one representative below p, whichever limbs held it |
| Field25519.FromBytes | crates/crypto/src/field.rs:22-33 | any 32 bytes are read as their little-endian value with the top bit ignored |
| Field25519.Pow250 | crates/crypto/src/field.rs:157-170 | the addition chain computes z^(2^250 - 1) and z^11 |
| Field25519.Invert | crates/crypto/src/field.rs:173-176 | the chain computes z^(p-2), for every z |
| Field25519.PowP58 | crates/crypto/src/field.rs:179-182 | the chain computes z^((p-5)/8), for every z |
| Fermat.Inverse | crates/crypto/src/field.rs:173-176 | modulo a prime, by the binomial expansion, x times x^(p-2) is 1 for every x that is not 0 |
| Inverses.InvertInverts | crates/crypto/src/field.rs:173-176 | so what the chain computes is the inverse of every nonzero element, 2^255 - 19 being prime |
| Field25519.Swap | crates/crypto/src/field.rs:185-192 | the masked exclusive-or swaps both elements under choice 1 and neither under choice 0 |
| Field25519.Select | crates/crypto/src/field.rs:195-198 | the masked choice is the second element under choice 1 and the first under 0 |
| Field25519.IsOdd | crates/crypto/src/field.rs:201-203 | the answer is the parity of the canonical value, not of the limbs held |
| Poly1305.ClampedLimbs | crates/crypto/src/chacha.rs:67-162 | the shifted and masked 26-bit reads of the key are the limbs of the clamped r |
| Poly1305.Round | crates/crypto/src/chacha.rs:67-162 | one block: (h + block) * r modulo 2^130 - 5, with no 64-bit overflow and limbs in bounds again |
| Poly1305.Freeze | crates/crypto/src/chacha.rs:67-162 | the masked choice between h and h - p leaves the true remainder |
| Poly1305.Compute | crates/crypto/src/chacha.rs:67-162 | for every 32-byte key and every message the limb code gives the tag of the integer definition of RFC 8439 |
| ChaCha.XorInPlace | crates/crypto/src/chacha.rs:56-64 | in place, 64 bytes at a time with a wrapping block counter, the array becomes the key stream exclusive-or its old contents |
| ChaCha.XorStreamCancels | crates/crypto/src/chacha.rs:56-64 | encrypting twice with the same key, counter and nonce gives the data back |
| ChaCha.MacDataInjective | crates/crypto/src/chacha.rs:174-184 | what is authenticated determines both the associated data and the ciphertext |
| ChaCha.Open | crates/crypto/src/chacha.rs:223-242 | a plaintext is answered if and only if the input is the sealing of that plaintext; fewer than 16 bytes is the length error and nothing else is |
| ChaCha.OpensExactly | crates/crypto/src/chacha.rs:188-242 | an input is a sealing of p exactly when its last 16 bytes are the tag of the rest and p is the rest decrypted |
| Bignum.Trim | crates/crypto/src/bignum.rs:26-30 | the value is kept and no high zero limb is left |
| Bignum.Unique | crates/crypto/src/bignum.rs:26-30 | two trimmed numbers of one value are the same limbs, so equality of limbs is equality of numbers |
| Bignum.Cmp | crates/crypto/src/bignum.rs:232-237 | comparing lengths and then limbs from the top is comparing the numbers |
| Bignum.Add | crates/crypto/src/bignum.rs:80-98 | the sum of the integers, for every length |
| Bignum.CheckedSub | crates/crypto/src/bignum.rs:101-117 | None exactly when the difference is negative, else the difference |
| Bignum.Mul | crates/crypto/src/bignum.rs:119-142 | the product of the integers; no step of a row overflows 128 bits |
| Bignum.Rem | crates/crypto/src/bignum.rs:157-179 | shift and subtract leaves the remainder, for every number and every nonzero modulus |
| Bignum.ModPow | crates/crypto/src/bignum.rs:201-211 | the power modulo m, for every base, exponent and nonzero modulus (1 included) |
| Bignum.ModInversePrime | crates/crypto/src/bignum.rs:215-222 | None exactly when m divides a, else a^(m-2) modulo m |
| Inverses.ModInverseInverts | crates/crypto/src/bignum.rs:215-222 | over a prime modulus that power is the inverse |
| Bignum.FromBe | crates/crypto/src/bignum.rs:33-43 | any bytes are read as the number they state in big-endian |
| Bignum.ToBe | crates/crypto/src/bignum.rs:46-60 | None exactly when the number needs more bytes, else that many bytes stating it |
| Bignum.BigEndianOnce | crates/crypto/src/bignum.rs:33-60 | at one length a number has one byte string, so reading and writing are inverse |
| X25519.Step | crates/crypto/src/x25519.rs:15-52 | one step's field operations, on any ratios of limbs, are the doubling and differential addition formulas on their residues |
| X25519.Compute | crates/crypto/src/x25519.rs:15-52 | with the deferred masked swap, the answer is the u-coordinate of the clamped scalar times the point |
| X25519.SharedSecret | crates/crypto/src/x25519.rs:62-69 | the same, and refused exactly when it is all zeros |
| Montgomery.DoubledIsDouble | crates/crypto/src/x25519.rs:15-52 | whatever ratio stands for u, the step's double stands for the affine double of u |
| Montgomery.SummedIsSum | crates/crypto/src/x25519.rs:15-52 | whatever ratios stand for two points whose difference has u-coordinate x1, the step's sum stands for the affine sum |
| MontgomeryGroup.LadderLawsHold | crates/crypto/src/x25519.rs:15-52 | from the affine laws of a commutative group over a prime modulus, everything the ladder's theorem asks, for every point: at infinity, at points of small order and at u = 0 |
| Ed25519.Reduce | crates/crypto/src/ed25519.rs:170-202 | for a byte string of any length, the 32 bytes are its little-endian value modulo the group order |
| Ed25519.MulAdd | crates/crypto/src/ed25519.rs:205-237 | a b + c modulo the group order |
| Ed25519.Multiply | crates/crypto/src/ed25519.rs:103-111 | double and select over 256 bits denotes the scalar multiple of the group element |
| Ed25519.Sign | crates/crypto/src/ed25519.rs:277-296 | the 64 bytes are the encoding of r B and the scalar r + k a modulo the order, with r, k and a as RFC 8032 derives them |
| Ed25519.Verify | crates/crypto/src/ed25519.rs:300-316 | accepted exactly when S is below the order, the key A and R both decode, and S B and R + k A have one encoding |
| Ed25519.SignatureVerifies | crates/crypto/src/ed25519.rs:277-316 | every signature made with a seed is accepted under the public key of that seed, for every message |
| Edwards.AddIsSum | crates/crypto/src/ed25519.rs:78-91 | the extended coordinates formula stands for the affine sum of the twisted Edwards curve, for all points and all scalings |
| Edwards.FormulaIsGroupLaw | crates/crypto/src/ed25519.rs:78-91 | over a prime modulus, points on the curve by the affine law meet the addition hypothesis of Ed25519 |
| Ecdsa.OnCurve | crates/crypto/src/ecdsa.rs:73-83 | accepted exactly when both coordinates are below p and satisfy the curve equation |
| Ecdsa.CutDigest | crates/crypto/src/ecdsa.rs:176-213 | the leftmost bits of the digest, as many as the group order has, for a digest of any length |
| Ecdsa.TwinMultiply | crates/crypto/src/ecdsa.rs:147-165 | the joint ladder from the longer scalar's top bit denotes u1 G + u2 Q, for every pair of scalars |
| Ecdsa.AffineX | crates/crypto/src/ecdsa.rs:168-172 | None exactly at infinity, else the x-coordinate |
| Ecdsa.Verify | crates/crypto/src/ecdsa.rs:176-213 | accepted exactly when r and s are in 1..n-1, the key is on the curve and u1 G + u2 Q is finite with x-coordinate r modulo n |
| Ecdsa.SignedIsAccepted | crates/crypto/src/ecdsa.rs:176-213 | a signature that satisfies the signing equation for a key's secret and some nonce is accepted |
| Weierstrass.AddIsSum | crates/crypto/src/ecdsa.rs:109-144 | Jacobian addition stands for the chord-and-tangent sum in all cases: infinities, equal points, opposite points, distinct points |
| Weierstrass.DoubleIsTangent | crates/crypto/src/ecdsa.rs:85-107 | Jacobian doubling stands for the tangent's third point reflected, and for infinity when y is 0 |
| Weierstrass.CurveLawsHold | crates/crypto/src/ecdsa.rs:85-144 | over a prime modulus above 2, the coordinates of an affine group by chord and tangent form the group that the scalar multiplication asks for |
| Weierstrass.SoundHolds | crates/crypto/src/ecdsa.rs:73-172 | with the curve's equation, everything that verification asks of its curve: points that satisfy the equation are on it, and x over z squared, by Fermat's inverse, is the affine x |
| Weierstrass.SignedOverPrimeOrder | crates/crypto/src/ecdsa.rs:176-213 | over a group of prime order every signature that satisfies the signing equation is accepted, the inverse of s being the power computed |
| Huffman.Bits.Take | crates/crypto/src/inflate.rs:30-45 | the next bits, lowest first, as a number; None exactly when fewer are left |
| Huffman.New | crates/crypto/src/inflate.rs:63-90 | refused exactly when the code lengths are over-subscribed, else the counts and symbols describe the canonical code |
| Huffman.PrefixFree | crates/crypto/src/inflate.rs:63-105 | when the lengths fit, no two symbols' canonical codes can both stand at one place |
| Huffman.Decode | crates/crypto/src/inflate.rs:92-105 | the walk by counts finds the one symbol whose code stands at the cursor and moves past it, and None exactly when none does |
| Deflate.CopiedRepeats | crates/crypto/src/inflate.rs:187-272 | a match longer than its distance repeats the last bytes over and over |
| Deflate.BlocksOneOutcome | crates/crypto/src/inflate.rs:187-272 | a block that stands at a place in a stream has one content, one meaning and one end |
| Inflate.DynamicTables | crates/crypto/src/inflate.rs:137-180 | a header is read exactly when one stands at the cursor, and the two tables describe the codes it states |
| Inflate.Body | crates/crypto/src/inflate.rs:187-272 | the token loop answers what the tokens written at the cursor expand to, within the limit, and refuses exactly when none are written |
| Inflate.Inflate | crates/crypto/src/inflate.rs:187-272 | decoding is sound and complete: an answer is what some blocks written in the data expand to, with the bytes they used; any data in which blocks within the limit are written is decoded to them |
| Inflate.BlocksLimit | crates/crypto/src/inflate.rs:187-272 | output never passes the limit, and a smaller output is the same under any limit it fits |
| Zlib.Adler32 | crates/crypto/src/inflate.rs:275-286 | deferring the remainder over 5552 bytes never overflows and gives the checksum of RFC 1950 |
| Zlib.ZlibDecompress | crates/crypto/src/inflate.rs:290-316 | an answer exactly for a stream with a right header, blocks within the limit and the checksum of what they expand to |
| Galois.Multiply | crates/crypto/src/aes.rs:10-19 | the shift-and-reduce loop is the product in GF(2^8) |
| Galois.Associative | crates/crypto/src/aes.rs:10-19 | that product is associative, for all bytes |
| Galois.Power256 | crates/crypto/src/aes.rs:23-35 | x^256 = x for every byte, so x^254 is the inverse |
| Galois.InvertTwice | crates/crypto/src/aes.rs:23-35 | the inversion chain undoes itself, 0 included |
| Galois.BoxesInverse | crates/crypto/src/aes.rs:37-44 | the S-box and its inverse undo each other, in both orders, for every byte |
| Circulant.ColumnsInverse | crates/crypto/src/aes.rs:187-205 | the column mix and its inverse undo each other, in both orders |
| Rijndael.EncryptBlock | crates/crypto/src/aes.rs:131-143 | the in-place rounds leave the cipher of the block, over any layers |
| Rijndael.Gathered | crates/crypto/src/aes.rs:77-124 | the flat word loop makes the round keys of FIPS 197, for 16, 24 and 32 byte keys |
| Rijndael.CipherInverse | crates/crypto/src/aes.rs:131-159 | decryption undoes encryption and the reverse, for all round keys, when each layer undoes its own |
| Aes.AesInverse | crates/crypto/src/aes.rs:131-159 | AES meets that: its S-box, row shift and column mix are inverses, so the block cipher is a bijection on blocks |
| Aes.New | crates/crypto/src/aes.rs:77-124 | a cipher exactly for 16, 24 and 32 byte keys |
| Modes.CfbInverse | crates/crypto/src/aes.rs:211-236 | CFB decryption and encryption undo each other, for data of every length |
| Modes.CfbDecrypt | crates/crypto/src/aes.rs:224-236 | in place, keeping each ciphertext block before it is overwritten, the array becomes the CFB decryption of its old contents |
| Modes.KeyWrap | crates/crypto/src/aes.rs:240-271 | six passes over the registers give the wrapping of RFC 3394, refused exactly for lengths it does not take |
| Modes.KeyUnwrap | crates/crypto/src/aes.rs:275-310 | the reverse passes give the unwrapping, or None when the check value or the length is wrong |
| Modes.UnwrapsExactly | crates/crypto/src/aes.rs:240-310 | a key is unwrapped from a string if and only if the string is that key wrapped |
| Gcm.Multiply | crates/crypto/src/gcm.rs:30-41 | the branch-free shift loop over 128 bits is the product in GF(2^128) |
| Gcm.GhashIs | crates/crypto/src/gcm.rs:45-60 | the hash is the polynomial in H whose coefficients are the padded associated data, the padded ciphertext and the two lengths |
| Gcm.Ctr | crates/crypto/src/gcm.rs:89-98 | in place, the array becomes its old contents under the counter stream, the low 32 bits wrapping |
| Gcm.OpensExactly | crates/crypto/src/gcm.rs:126-171 | with any tag length, p is opened exactly when the length is 4 to 16, the sealed bytes are p's length and the tag's, and they are the sealing of p cut there |
| Gcm.OpenWithTag | crates/crypto/src/gcm.rs:148-171 | the code's answer is that one, for every input and tag length |
| Ocb.DoubleIs | crates/crypto/src/ocb.rs:9-17 | doubling shifts the big-endian number and adds 0x87 exactly when a bit fell out |
| Ocb.SlideIs | crates/crypto/src/ocb.rs:105-138 | the byte-wise shifts cut the 128 bits that start at the bottom of the stretched nonce |
| Ocb.InitialOffset | crates/crypto/src/ocb.rs:105-138 | refused exactly for empty nonces and those over 15 bytes, else the first offset of RFC 7253 |
| Ocb.Seal | crates/crypto/src/ocb.rs:164-203 | the running offsets, checksum and tag are those of RFC 7253, for every length of data |
| Ocb.Open | crates/crypto/src/ocb.rs:207-257 | the same for opening, with the errors of short input, bad nonce and wrong tag |
| Ocb.OpensExactly | crates/crypto/src/ocb.rs:164-257 | a plaintext is opened if and only if the input is its sealing |
| Sha.PaddingEndsBlock | crates/crypto/src/sha.rs:137-148 | the padding is the shortest that ends a block, for every message length |
| Sha.PaddingInjective | crates/crypto/src/sha.rs:137-148 | two messages that are the same after padding are the same, whatever their lengths |
| Sha.Hasher.Absorb | crates/crypto/src/sha.rs:35-57 | however the message is cut into updates, what the buffer and state hold is the message so far |
| Sha.Hasher.Finish | crates/crypto/src/sha.rs:405-420 | the output is the digest of everything absorbed |
| Sha.OneShot | crates/crypto/src/sha.rs:496-502 | the digest of the data, for every compression function with these layouts |
| Sealed.ParsesExactly | crates/crypto/src/sealed.rs:112-141 | a sealed item parses to header, nonce and body exactly when it is those one after the other |
| Sealed.Seal | crates/crypto/src/sealed.rs:58-98 | refused exactly for no recipients, over 255, or one whose agreement fails; else one entry for each |
| Sealed.Open | crates/crypto/src/sealed.rs:156-197 | the code's loops over entries and secrets answer the first entry that opens, with every error case |
| Sealed.RecipientIsNeverRefused | crates/crypto/src/sealed.rs:58-197 | any holder of a recipient's secret gets an answer, whatever other secrets are tried first |
| Sealed.EveryRecipientOpens | crates/crypto/src/sealed.rs:58-197 | and the answer is the plaintext, unless a wrong key opens another entry's wrapped key |
| Der.ReadsExactly | crates/crypto/src/x509.rs:99-145 | an element is read exactly when the data begins with its one DER encoding: a low tag, minimal length, contents in full |
| Der.ExpectsExactly | crates/crypto/src/x509.rs:148-156 | contents and rest are answered exactly when the data is the encoding under that tag followed by the rest |
| Der.UnsignedIs | crates/crypto/src/x509.rs:303-310 | refused exactly for empty and negative integers, else the bytes state the number |
| Calendar.NextDayCounts | crates/crypto/src/x509.rs:314-321 | the closed formula counts one more for the next day of the Gregorian calendar, from every date |
| Calendar.DaysCountDates | crates/crypto/src/x509.rs:314-321 | from 1970 on it is the number of days since 1 January 1970 |
| Calendar.DaysTellDates | crates/crypto/src/x509.rs:314-321 | two dates with one count are the same date |
| Calendar.TimeMeans | crates/crypto/src/x509.rs:325-361 | an accepted time is the moment of the date written if and only if the day is in the month and the second at most 59; otherwise it is the moment as many days into the next month, or the second after |
| Calendar.TwoDigitYears | crates/crypto/src/x509.rs:325-361 | a two-digit year is read as the four-digit year the standard gives it |
| Calendar.FebruaryThirtieth | crates/crypto/src/x509.rs:325-361 | every accepted 30 February is read as 2 March, or 1 March in a leap year |
| Calendar.FebruaryThirtiethIsRead | crates/crypto/src/x509.rs:325-361 | there are such inputs |
| Chain.VerifyServerChain | crates/crypto/src/x509.rs:696-807 | the code's loop answers the specification's verdict, error by error |
| Chain.VerifiedIsTrusted | crates/crypto/src/x509.rs:696-807 | a key is answered only when issuers that are in date, CAs deep enough and allowed to sign lead to an anchor, and it is the leaf's |
| Chain.VerifiedExactly | crates/crypto/src/x509.rs:696-807 | accepted if and only if there is such a path on which each step takes the first unused issuer and no earlier certificate is anchored |
| Chain.TrustedIsVerified | crates/crypto/src/x509.rs:696-807 | when no certificate has two issuers among those sent, any path is enough |
| Chain.FirstIssuerHidesSecond | crates/crypto/src/x509.rs:696-807 | a chain of three certificates with a path to an anchor that is refused as incomplete |
| Utf8.CutText | src/core/mod.rs:257-269 | a text cut at byte k is a text if and only if the cut is not inside a character |
| Utf8.AnyCutIsText | src/core/mod.rs:257-269 | a text can be cut at every byte if and only if it is ASCII |
| Journal.CutLines | src/access/capability/journal.rs:37-60 | the bytes of an append cut at byte k hold the whole values written before the cut, and bytes of no value after them exactly when the cut is inside a value |
| Journal.CutReads | src/access/capability/state.rs:126-129 | a journal whose append was cut at byte k can be read as text if and only if the cut is not inside a character |
| Journal.Replay | src/access/capability/journal.rs:37-84 | values are applied in order and a value that is none of the three kinds is refused |
| Journal.ReplayEntries | src/access/capability/journal.rs:88-106 | replaying the lines of an entry sets that record and that nonce and nothing else |
| Journal.PurgeTwice | src/access/capability/state.rs:165-184 | purging earlier first changes nothing about a later purge |
| Journal.SetPurged | src/access/capability/state.rs:165-184 | setting a record after a purge or before it is the same after the next purge |
| CapabilityStore.Store.Load | src/access/capability/state.rs:126-149 | answers the replay purged at the clock; refused, and the file left as it is, exactly when it is not text, a value cannot be applied or bytes stand in it but no complete value; a torn tail is repaired without losing a complete value |
| CapabilityStore.Store.SaveEntry | src/access/capability/state.rs:204-218 | the entry is on disk and the journal holds at most twice the live snapshot; what was appended, and whether and how much a snapshot was written, to the byte |
| CapabilityStore.Store.Change | src/access/capability/state.rs:187-218 | one change keeps the store's whole invariant, in which the bytes of all snapshots and of the file are at most the bytes appended, one for each compaction and what repairs cost |
| CapabilityStore.Store.Issue | src/access/capability/issue.rs:128-148 | a fresh capability with its expiry and uses; past the checks of its flags and route, refused exactly when the expiry leaves 64 bits or the state cannot be loaded |
| CapabilityStore.Store.Redeem | src/access/capability/redeem/request.rs:104-241 | answers and state are those of a store that never purged or compacted, also on a journal torn by a crash: a nonce is refused forever after it was seen, each redemption spends one use and nothing else spends any, and the journal stays within twice the live snapshot; a journal that cannot be loaded is an error and stays as it is |
| CapabilityStore.Store.Live | src/access/capability/status.rs:122-129 | the purged journal answers what the unpurged store would, or cannot be loaded |
| CapabilityStore.Store.ActiveCount | src/access/capability/status.rs:103-119 | the count is of the capabilities redeemable in the unpurged store, unless the journal cannot be loaded |
| CapabilityStore.CutAppend | src/access/capability/journal.rs:88-123 | the complete values left by a crash at any byte of an append replay to the old state, to the nonce seen, or to all of it |
| CapabilityStore.CutLoadsExactly | src/access/capability/state.rs:126-149 | such a journal loads if and only if the cut is not inside a character, and something complete is there or nothing was written |
| CapabilityStore.AnyCutLoads | src/access/capability/state.rs:126-149 | every cut of an append to a journal that holds something loads if and only if the id, the record and the nonce are ASCII |
| CapabilityStore.AccentBreaksJournal | src/access/capability/state.rs:126-149 | a nonce with an accent has a cut after which no load reads the journal, although complete values stand in it |
| CapabilityStore.Store.Interrupted | src/access/capability/journal.rs:109-123 | after such a crash the store agrees with an unpurged store that took the complete values, and loads exactly under that condition |
| CapabilityStore.Store.Recover | src/access/capability/state.rs:126-149 | the load every operation begins with re-establishes the store's whole invariant, or changes nothing when the journal cannot be loaded |
| Acquisition.PayloadInjective | src/access/acquisition/proof.rs:56-68 | the NUL-joined payload determines every field of a well-formed request, so a signature covers exactly one |
| Acquisition.ProofKeyInjective | src/access/acquisition/mod.rs:90-181 | the nonce key determines workload and nonce |
| Acquisition.RedeemedOncePerIssue | src/access/acquisition/mod.rs:90-275 | over every run, reads of a token plus one if it is live are at most its issues |
| Acquisition.ReadWasIssued | src/access/acquisition/mod.rs:183-275 | every value read goes back to one proved request for that consumer, item and field, before its grant's expiry |
| Acquisition.RefusalSpendsNothing | src/access/acquisition/mod.rs:183-275 | a consume that reads nothing leaves the state alone, except that an expired token is dropped |
| Acquisition.ProofOnRecordExactly | src/access/acquisition/proof.rs:110-137 | over every run, a nonce is on record exactly when it was granted and no later grant's clock had reached its expiry |
| Acquisition.GrantedAgainExactly | src/access/acquisition/mod.rs:90-181 | a granted nonce is granted again if and only if its own or an earlier grant's clock had reached the expiry and the request passes every other check |
| Acquisition.GrantedAgainWhenLate | src/access/acquisition/mod.rs:90-181 | the run in which one nonce is granted twice within its expiry, for any requests whose clocks invert like that |
| Acquisition.NonceReadOnce | src/access/acquisition/mod.rs:90-275 | at most one token of a nonce, granted under one expiry, is ever read, when consumes read clocks that do not run back |
| Acquisition.TimestampGrantedExactly | src/access/acquisition/mod.rs:90-181 | the next request of a workload is granted if and only if its timestamp is not below the last granted one, or that one was forgotten, and it passes every other check |
| Acquisition.ReadTimestampsAscend | src/access/acquisition/mod.rs:90-275 | for a workload whose grants share one expiry, tokens that are read carry timestamps in the order they were issued |
| Requests.EveryRequestIsSound | src/access/request/decide.rs:225-327 | over every run: a pending request has fewer approvals than its quorum and issued nothing, an approved one exactly its quorum from distinct deciders and issued the narrowest bounds they stated, a closed one issued nothing |
| Requests.RequestsOnlyMoveOn | src/access/request/decide.rs:225-327 | no request is removed, its terms never change, decisions are only added, and nothing changes once it is not pending |
| Requests.ReducedIsNarrowest | src/access/request/mod.rs:78-86 | folding the stated lifetimes and uses gives a bound some decider stated and that no stated one is below |
| Requests.UsesForExactly | src/access/request/decide.rs:126-140 | bounds are refused exactly when the form of the grant cannot state them |
| Requests.DecisionsAreAuthorized | src/access/request/decide.rs:77-123 | whatever changes a request is a decision by an owner or admin who may decide it and had not, or its own agent withdrawing |
| Requests.OneOpenCopy | src/access/request/file.rs:244-303 | a question filed only through the broker is never pending twice |
| Requests.GrantsAreApprovals | src/access/request/decide.rs:143-294 | over every run, the grants the vault wrote for a request are its approval and those lost to an error after the writing, and a record request has none |
| Requests.LostGrantRepeats | src/access/request/decide.rs:143-294 | after such a loss the same approval, of the request as it still is, has another grant written if and only if the vault does not refuse and, for a consumer, the grant stands no longer |
| Requests.OneStandingGrant | src/access/request/decide.rs:173-182 | over every run, between two grants written for one consumer somebody revoked it |
| Requests.LostConsumerWaits | src/access/request/decide.rs:173-182 | over every run, a request whose consumer grant was lost is not approved as long as that grant stands |
| Requests.CapabilityIssuedTwice | src/access/request/decide.rs:225-294 | filed, approved with the register unwritable and approved again, every capability request has two grants |
| Requests.ConsumerLeftPending | src/access/request/decide.rs:225-294 | in the same run a consumer request is left pending beside the one grant it has |
| Requests.ApprovedWasIssued | src/access/request/decide.rs:257-272 | over every run, an approved request goes back to the approval that had the vault write a grant within the bounds it holds |

## Findings

Where a promise of the code or its documentation turned out false, the input is here and so is
the exact condition.

- **A nonce granted twice.** `issue` in src/access/acquisition/mod.rs reads its clock before it
  takes the state lock. A request that read its clock and then waited for the lock can follow a
  grant with a later clock, whose purge forgot the nonce the waiting request repeats; both are
  granted, each before its expiry (`Acquisition.GrantedAgainWhenLate`, with a concrete run in
  `Acquisition.LateAtTheLock`). `Acquisition.GrantedAgainExactly` says when, for all runs, and
  `Acquisition.NonceReadOnce` that at most one of the two tokens is ever read.
  `Acquisition.TimestampGrantedExactly` is the same for timestamps that go back.
- **A grant lost.** `approve` in src/access/request/decide.rs has the vault write the grant before
  it writes the register. When the register cannot be written, or the vault answers an error after
  its own write, the grant exists and the request is still pending. Approving a capability again
  issues a second one (`Requests.CapabilityIssuedTwice`); approving a consumer grant again is refused
  until somebody revokes the first, and the request waits beside a live grant
  (`Requests.ConsumerLeftPending`, `Requests.LostConsumerWaits`). `Requests.LostGrantRepeats` is the
  exact condition and `Requests.GrantsAreApprovals` the count.
- **A journal that is not text.** `load_state` in src/access/capability/state.rs reads the journal as
  text before it looks for complete values, and only bytes that are text but no value are repaired.
  An append cut inside a character outside ASCII, which the JSON writer does not escape and nonces,
  agents, purposes, resources and targets may hold, leaves a file that no later operation can read,
  although complete values stand in it (`CapabilityStore.AccentBreaksJournal`).
  `CapabilityStore.CutLoadsExactly` says which cuts load and `CapabilityStore.AnyCutLoads` that all
  do exactly when everything written is ASCII.
- **The first issuer hides the second.** `verify_server_chain` in crates/crypto/src/x509.rs takes
  the first sent certificate that issued the current one and never returns to another, so a chain
  with a path to an anchor can be refused (`Chain.FirstIssuerHidesSecond`). `Chain.VerifiedExactly`
  says which chains are accepted.
- **30 February.** `time` in crates/crypto/src/x509.rs takes any day up to 31 in any month, and
  second 60. `Calendar.TimeMeans` says when an accepted time is the moment written, and which
  moment it is otherwise; `Calendar.FebruaryThirtieth` is the case its name says.

## Left out

- Chain.VerifyServerChain: does not model reading a certificate from its DER, its extensions,
  its signature check or its host names, because those are parameters of the walk.
- X25519.Compute: does not prove that the points form a group, because the group's affine laws are
  the hypothesis of `MontgomeryGroup.LadderLawsHold`.
- Sha.OneShot: does not model the compression functions and their constants, because nothing
  about the buffer or the padding depends on them.
- ChaCha.XorInPlace: does not model the quarter rounds, because the stream holds of any block
  function.
- Sealed.EveryRecipientOpens: does not exclude by itself that a wrong key opens an entry, because
  an AEAD with 16-byte tags cannot promise it; the hypothesis names exactly those entries.
- Acquisition.NonceReadOnce: does not cover one workload whose two grants for one nonce have
  different expiries, because the code keeps a nonce only until the expiry it was granted with.
- CapabilityStore.Store.Issue: does not model the refusals of flags, routes and credentials
  (src/access/capability/issue.rs:59-126), because they come before the state is touched.
- CapabilityStore.Store.Redeem: does not model the proof's signature, the route to an item or
  reading it, because their outcomes are parameters; nor the audit entry failing after the state
  was saved (src/access/capability/redeem/request.rs:231-235), which spends a use without an answer.
- CapabilityStore.Store.SaveEntry: does not model a snapshot that cannot be written after the append,
  which leaves the entry on disk and answers an error.
- Requests.Register.Approve: does not model the grant's id, expiry and token file, because the
  register keeps them in place of the bounds they were made from; nor the audit entry failing after
  the register was written.
- RSA, HMAC, HKDF, TLS and OpenPGP.
- Reading and writing JSON: the journal's codec is a parameter with the laws that a value's line
  parses back and a cut line does not, and that it is text, in ASCII exactly when the value is.
- The text of error messages: refusals are options or kinds of errors.
- Wiping of secrets, constant time, file permissions and the advisory lock itself.
- The vault document, recipients, credentials and routing: the access operations take what they
  ask of them as parameters.
