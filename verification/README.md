# libmacaroons, modelled and proved in Dafny

libmacaroons mints bearer tokens that carry caveats. A macaroon starts as an identifier under a keyed
hash. Each caveat folds itself into the signature. A third-party caveat also carries a key, sealed under
the signature so far, that only the verifier can open again; a discharge macaroon made with that key
answers it. Verification recomputes the chain, opens the sealed keys and follows the discharges.

The project models the C code from the hash functions up to whole runs of the API, in its own
form: arrays updated in place, an advancing write pointer, a streaming context, the shared path of the
recursive verifier. Each method is proved against a specification, and the specifications are proved to
have the properties the library is for.

| file | models |
|---|---|
| Macaroons, Discharge, Verdict, Runs | macaroons as values, what authorization means, and whole runs of the API |
| Verifier | the verifier object and the mutual recursion with its `tree` array and status words |
| Structs, Construction | macaroons in memory: one block, slices into its body, and the functions that fill it |
| Binding | what signatures, bindings and derived keys depend on |
| Words, Sha256, Sha256Constants, Sha256Laws, Sha256Stream | the compression function, its constants, the streaming context, HMAC |
| Salsa20, Poly1305, SecretBox | the NaCl secretbox down to its words and limbs |
| Field25519, ModL | arithmetic modulo 2^255 - 19 and modulo the group order |
| VarInt, FormatV2 | the binary wire format |
| Base64, Packet, FormatV1 | the first wire format |
| Formats | the choice between the formats |
| Concrete, Delivery | HMAC-SHA256 and the secretbox put under the protocol, and the wire put between sender and receiver |
| Bytes, ModArith, Buffers | bits, congruences, limbs and written stretches of buffers |

`dafny verify dfyconfig.toml` checks everything.

## How the parts meet

* `Verifier.Verify` returns 0 exactly when `Discharge.Authorized` holds: a finite tree that picks, for every
  third-party caveat, a discharge that proves itself under the key the caveat opens to. The tree knows
  neither the `tree` array nor its cut-off.
* `Runs.RunVerdict` is the exact verdict on whole runs, for any primitives that satisfy `Suite.Sound`: lengths,
  and that opening undoes sealing. The parties of a run may use any keys and bind discharges to any macaroon;
  `World.Honoured` is the tree of references that were answered under their keys for this root.
* A hash to 32 bytes cannot be injective. `Binding.Distinguishes` asks only that it tells apart the pairs of
  key and text in a finite set `q`, and the results ask that `q` has the pairs that the run hashes. It is needed
  for refusals alone: `Runs.Completeness` and `Runs.AnsweredVerdict` do without.
* `Concrete.ConcreteSound` shows that the linked primitives are sound.
* What a specification and the code both read - tables, masks, rotation amounts, texts, type bytes - is tied to
  something outside both: the roots of primes, a number or an example of the standard, the characters of a text,
  the bytes on the wire (`Sha256Constants.RoundConstant`, `Poly1305.ClampMasks`, `Salsa20.OneBit`,
  `Sha256Laws.AbcFirstRound`, `FormatV2.CaveatText`, `Base64.TableText`, `Runs.SpelledMint`).
* `Construction` makes the same macaroons in memory, calling the streaming HMAC and the secretbox.
* `Delivery.VerifyReceived` lets every macaroon of a run cross the wire, reads it back and verifies it.

## What the code does that one might not expect

* Status words are combined with `|=` and `&=`. With values outside 0, 1 and -1 two failures could cancel
  (`Verifier.AndStatusNeedsUnits`); 32-byte signatures and vids of 0 or 72 bytes keep every word among the three.
* Which caveats are third-party caveats is not part of what is signed. A first-party caveat whose predicate is
  the 64 bytes of the two inner hashes leads to the same signature as the third-party caveat itself;
  `Binding.PredicateInItsPlace` says that no other predicate does.
* The first format prints no packet for an empty field, so a caveat without identifier is lost
  (`FormatV1.EmptyCidLost`); `FormatV1.RoundTrip` gives the exact condition.
* The hexadecimal digit search finds the terminating NUL of its table, so a NUL byte counts as digit 16
  in a packet size, and a buffer that starts with NUL is taken for the first format.
* base64.c's comments promise '+', '/' and padding; the code uses '-', '_' and none. The decoder accepts a
  stray 'A' behind whole groups (`Base64.StrayAccepted`). The encoder asks for four characters of room for a partial group.
* v2.c:167 compares `data + length` with the end of the buffer on 64-bit pointers. A declared length that makes
  the sum wrap passes, and the cursor moves backwards. `FormatV2.ComparisonExact` says exactly when the comparison
  is the bounds check, `FormatV2.WrappingInput` gives an input that wraps at every address, and the verdict on
  the inputs whose walk reaches a wrapping length is `Wraps`, which `Formats.Meaning` calls undefined.
* macaroon_deserialize takes a size, but a text of the first format is read up to a NUL, whatever the size says.
  Its caller has to put one behind the text, as in `Delivery.Carries`; without one the verdict is undefined.
* The loop over the caveats of the first format looks at its last packet again when the buffer ends. A non-empty
  vid or cl is then a duplicate, and the macaroon is rejected.
* The size hint of the second format is one larger than what is written.
* The buffer for the sealed key is declared with 48 bytes at macaroons.c:352 while 64 are written; the model
  has 64, the size used for the same purpose at macaroons.c:729.
* The table `L` in tweetnacl.c is unsigned, so products with negative limbs are formed modulo 2^64. All
  true values are proved to fit 64 signed bits, where both readings agree; the model computes the true values.

## Model

| member | source | states |
|---|---|---|
| Discharge.VerdictIffTree | macaroons.c:717-877 | The recursion with its shared path and its cut-off accepts exactly the macaroons for which a finite discharge tree exists; the tree predicate mentions no cut-off |
| Discharge.Pigeonhole | macaroons.c:784-833 | A path of pairwise different indexes below MS_sz has at most MS_sz entries, so the cut-off only stops paths that already repeat an index |
| Discharge.TreeVerifies | macaroons.c:802-877 | Every discharge tree on a path without repetition is accepted by the recursion: the cut-off costs no acceptance |
| Discharge.VerifiesTree | macaroons.c:802-877 | Whatever the recursion accepts has a discharge tree, which is built from the candidates that verified |
| Binding.Hash2Fixes | macaroons.c:313-327 | Among pairs that the hash tells apart, two hash2 values are equal if and only if key, first and second part are equal |
| Binding.BindFixes | macaroons.c:459-468 | Two bindings are equal if and only if both the root's signatures and the discharges' own signatures are |
| Binding.DerivedKeyFixes | macaroons.c:201-211 | Two derived keys are equal if and only if the keys they are derived from are |
| Binding.StepFixes | macaroons.c:838-863 | Folding in a caveat fixes the signature before it and what the caveat contributes; between caveats of the same kind, identifier and vid |
| Binding.PredicateInItsPlace | macaroons.c:838-863 | The kind of a caveat is not signed: a predicate leads to the same signature as a third-party caveat if and only if it is the 64 bytes of that caveat's two hashes |
| Binding.ChainFixes | macaroons.c:835-863 | Equal signatures at the end of chains over caveats of the same kinds come from equal signatures at their starts and equal identifiers and vids |
| Binding.SignatureFixes | macaroons.c:835-863 | A signature fixes the key, the identifier, and identifier and vid of every caveat, and nothing else: locations do not count |
| Binding.BoundFixes | macaroons.c:865-876 | The signature a verifier expects of a discharge under one key and one root equals that under another key or root only if key and root's signature are the same |
| Binding.UnboundDiffers | macaroons.c:865-876 | A discharge that was never bound carries another signature than the verifier expects, unless its last hash was keyed with 32 zeros |
| Verifier.AndStatusNeedsUnits | macaroons.c:778 | Outside {0, 1, -1} two failing status words can combine under `&=` to a success, so the restriction to those values is needed |
| Verifier.VerifierObject.constructor | macaroons.c:556-572 | A new verifier holds no predicate and no callback |
| Verifier.VerifierObject.SatisfyExact | macaroons.c:603-640 | Appends the predicate, changes nothing else, and grows the capacity by half from eight on when it is used up |
| Verifier.VerifierObject.SatisfyGeneral | macaroons.c:642-673 | Appends the callback, changes nothing else, and grows the capacity likewise |
| Verifier.MemCmp | timingsafe_bcmp.c:20-29 | 0 exactly when the first n bytes agree, otherwise 1, although every difference is or-ed in |
| Verifier.SameBytes | macaroons.c:751-753 | Comparing sizes and the common prefix decides equality |
| Verifier.VerifyInner1st | macaroons.c:684-715 | Returns 0 exactly when an exact predicate equals the caveat or a callback returns 0 on it, and -1 otherwise |
| Verifier.OnPath | macaroons.c:784-787 | The or over the earlier entries is 0 exactly when the current entry is not among them |
| Verifier.OpenVid | macaroons.c:756-777 | Splits the vid into nonce and box; 0 exactly when the box opens, and a zero key when it does not |
| Verifier.VerifyInner3rd | macaroons.c:717-800 | Returns 0 exactly when the box opens under the running signature, no matching discharge lies on the path and some matching discharge verifies under the opened key; entries of `tree` below its level stay, the status is 0, 1 or -1, and the recursion ends |
| Verifier.VerifyInner | macaroons.c:802-877 | Returns 0 exactly when the folded, and below the root bound, signature matches and every caveat holds at its place in the chain; writes `tree` only from its own level on |
| Verifier.VerifyRaw | macaroons.c:879-913 | Returns 0 exactly when a discharge tree exists for the root under the raw key |
| Verifier.Verify | macaroons.c:915-931 | Returns 0 exactly when a discharge tree exists for the root under the derived key |
| Verdict.VerdictOfMultiset | macaroons.c:744-799 | Reordering the discharges never changes the verdict |
| Verdict.VerdictMonotone | macaroons.c:684-800 | More discharges and a more permissive policy, in any combination, never turn an acceptance into a rejection |
| Verdict.VerdictAppend | macaroons.c:746-800 | Presenting one further discharge keeps an acceptance, even one whose identifier matches |
| Verdict.VerdictMorePolicy | macaroons.c:603-715 | One more predicate or callback keeps an acceptance |
| Runs.MintShape | macaroons.c:163-457 | Create or create_raw followed by any caveat additions, raw ones included, succeeds exactly within the caveat limit, and every signature along the way is the value the verifier computes at that index |
| Runs.OpensToKey | macaroons.c:342-457 | A third-party caveat, raw or not, opens, under the verifier's running signature at its index, to the key it was made with, and its vid has 72 bytes |
| Runs.SpelledMint | macaroons.c:163-457 | A root with one caveat of each kind, spelled out in the two primitives: every byte that is hashed, sealed or shown, generator string included |
| Runs.SpelledDischarge | macaroons.c:459-552 | A discharge prepared for a root, spelled out in the keyed hash: both signatures, in order, under 32 zeros |
| Runs.MintedVerdict | macaroons.c:163-877 | A minted root is authorized if and only if each of its predicates is accepted and each third party has a discharge that verifies under the caveat key |
| Runs.AllWellFormed | macaroons.c:163-552 | Every macaroon that a run presents has a 32-byte signature and vids of 0 or 72 bytes |
| Runs.ProvesHonoured | macaroons.c:717-877 | Soundness at every depth: a discharge tree follows every reference of every discharge it uses to the issue that is named, made under the reference's key and prepared for this root, and satisfies every predicate on the way |
| Runs.HonouredProves | macaroons.c:717-877 | A finite tree of honoured references is a discharge tree: no reference in it leads back to the path |
| Runs.HonouredUnique | macaroons.c:746-753 | With distinct identifiers there is only one tree to follow |
| Runs.RunVerdict | macaroons.c:163-931 | The exact verdict on a whole run, whatever keys its parties used and whatever its discharges were bound to: authorized if and only if the verifier has the root's key and the references reachable from the root form a finite tree of discharges, each made under the key of the reference and prepared for this root, whose predicates the policy all satisfies; the hash must tell apart the pairs this run hashes |
| Runs.WrongAnswerRefused | macaroons.c:835-876 | A run whose root refers to a discharge of another key, or one prepared for another root, is refused under every key, whatever else is presented |
| Runs.WrongKeyRefused | macaroons.c:835-876 | A root verified under any key but its own is refused |
| Runs.AnsweredVerdict | macaroons.c:163-931 | Where every reference that names a discharge is answered by it, the exact verdict needs no assumption about the hash |
| Runs.AcyclicHonoured | macaroons.c:744-799 | References without cycles, each answered by an issue under its key and prepared for this root, form such a tree |
| Runs.Completeness | macaroons.c:163-552 | A root and discharges minted from the caveat keys under distinct identifiers, without cyclic references, bound to the finished root, are authorized whenever the verifier satisfies their predicates; nothing is assumed of the hash but its length |
| Concrete.ConcreteSound | port.c:95-127 | HMAC-SHA256 and the NaCl secretbox meet everything the protocol results ask of their primitives |
| Concrete.ConcreteVerdict | macaroons.c:163-931 | The exact verdict on whole runs, wrong keys and wrong bindings included, with HMAC-SHA256 and the secretbox in place |
| Concrete.ConcreteCompleteness | macaroons.c:163-552 | Completeness of whole runs with HMAC-SHA256 and the secretbox in place |
| Concrete.SealVid | macaroons.c:380-400 | The plaintext buffer, macaroon_secretbox and the two copies leave the nonce followed by the 48-byte box in vid |
| Concrete.OpenVid | macaroons.c:757-777 | The zeroed buffers and macaroon_secretbox_open give back the key, or leave 32 zero bytes on failure |
| Delivery.Send | macaroons.c:979-1003 | macaroon_serialize with a buffer as large as it asks for leaves a parcel that carries the macaroon |
| Delivery.Receive | macaroons.c:1005-1040 | macaroon_deserialize gives back what a parcel carries; the receiver has the bytes that were counted, and a NUL behind a text |
| Delivery.VerifyReceived | macaroons.c:880-1040 | A root and bound discharges that crossed the wire, each in a format of its own, are deserialised and verified under any raw or derived key: the result is 0 if and only if it is the root's key and the references form a finite tree of discharges, each under the key of the reference and prepared for this root, whose predicates the receiver accepts |
| Structs.Struct.constructor | macaroons.c:120-143 | A zeroed block with room for the asked number of caveats, one when none is asked for, and a body of the asked size |
| Structs.Struct.CopyToSlice | slice.c:36-44 | The slice reads the data, lies at the pointer, which moves behind it, and nothing below the pointer changes |
| Structs.Struct.CopyCaveat | macaroons.c:299-303 | Three slices one behind the other that read the caveat |
| Structs.Struct.CopyCaveats | macaroons.c:299-304 | The copying loop: the slices read the caveats of the other macaroon, in order, and the pointer moves by exactly their size |
| Structs.Struct.Size | macaroons.c:145-161 | The sum of all slices but the signature's |
| Construction.CreateRaw | macaroons.c:163-197 | A fresh block that spells the identifier under its HMAC; the body is exactly as long as what is in it |
| Construction.GenerateDerivedKey | macaroons.c:201-211 | The generator string in a zeroed 32-byte buffer keys the hash of the caller's key |
| Macaroons.KeyGeneratorText | macaroons.c:199-210 | The generator key spells macaroons-key-generator, with zeros up to 32 bytes |
| Construction.Create | macaroons.c:213-228 | As create_raw, under the derived key, for a key of any length |
| Construction.CopyParts | macaroons.c:296-304 | Location, identifier and caveats arrive at the front of the new body; the pointer ends at the body size |
| Construction.AddFirstParty | macaroons.c:256-311 | Fails with the code's two error codes in its order; otherwise a fresh block, exactly filled, that spells the old macaroon with the caveat appended and the signature folded |
| Construction.Hash2 | macaroons.c:313-327 | The keyed hash of the two keyed hashes, through the 64-byte scratch buffer; it fixes key and both parts (Binding.Hash2Fixes) |
| Construction.AddThirdPartyRaw | macaroons.c:342-439 | The same for a third-party caveat: the sealed key in the vid, the signature folded over vid and identifier, the body exactly filled |
| Construction.AddThirdParty | macaroons.c:441-457 | As the raw form, under the derived key |
| Construction.Copy | macaroons.c:1056-1091 | A fresh block that spells the same macaroon, with the signature last, in the 32 bytes reserved for it |
| Construction.Bind | macaroons.c:459-468 | The bound signature, which fixes both signatures (Binding.BindFixes) |
| Construction.PrepareForRequest | macaroons.c:518-552 | Overwriting the signature bytes of the copy in place binds the discharge and disturbs no other slice |
| Salsa20.LowMix | tweetnacl.c:36-36 | One mixing line on 64-bit words agrees in the low 32 bits with the addition, rotation and exclusive or of 32-bit words, whatever stands above them |
| Salsa20.PassIsColumnRound | tweetnacl.c:97-105 | A pass with its index arithmetic is a column round followed by a transposition (sections 4 to 6 of the Salsa20 specification) |
| Salsa20.RowIsColumn | tweetnacl.c:97-105 | The row round is the column round seen in the transposed matrix |
| Salsa20.PassesAreDoubleRounds | tweetnacl.c:96-106 | 2n passes are n double rounds: the transpositions cancel |
| Salsa20.TwentyRounds | tweetnacl.c:96-106 | Both cores run twenty passes on the expanded block |
| Salsa20.OneBit | tweetnacl.c:99-102 | The quarter round takes a single bit to the four places of the example in section 3 of the Salsa20 specification, one for each rotation |
| Salsa20.ExpandAt | tweetnacl.c:87-92 | Where constant, key and input lie in the expanded block, word by word |
| Salsa20.Load | tweetnacl.c:87-92 | The state is the sixteen little-endian words of the expanded key and input (section 9) |
| Salsa20.St32 | tweetnacl.c:53-57 | Writes the little-endian bytes of the low 32 bits only |
| Salsa20.Quarter | tweetnacl.c:98-102 | The four mixing lines are the quarter round, in the low 32 bits |
| Salsa20.RunPass | tweetnacl.c:97-105 | One pass in place, through the scratch arrays |
| Salsa20.Unadd | tweetnacl.c:108-113 | Adding the input words and taking the known ones off again leaves the eight words before the addition |
| Salsa20.CoreSalsa20 | tweetnacl.c:82-126 | The 64 output bytes are the Salsa20 expansion function of key, input and constant |
| Salsa20.CoreHSalsa20 | tweetnacl.c:108-132 | The branch h = 1 writes the un-added words that HSalsa20 is defined by |
| Poly1305.Add1305 | tweetnacl.c:182-190 | Addition modulo 2^136 that leaves byte limbs |
| Poly1305.ColumnsCong | tweetnacl.c:216-219 | The seventeen columns with their factor 320 weigh the product modulo 2^130 - 5 |
| Poly1305.Multiply | tweetnacl.c:216-219 | Fills the columns; none reaches 2^32 |
| Poly1305.Squeeze | tweetnacl.c:221-234 | The two carry runs keep the value modulo 2^130 - 5 and leave byte limbs with a top limb of at most 4 |
| Poly1305.SelectMask | tweetnacl.c:240-240 | The masked exclusive or keeps or replaces a limb |
| Poly1305.ClampMasks | tweetnacl.c:200-208 | Clamping is the and with the one number of section 2.5.1 of RFC 8439, for every key |
| Poly1305.Freeze | tweetnacl.c:237-240 | Adding minusp and selecting by the sign leaves the canonical residue |
| Poly1305.LoadR | tweetnacl.c:200-208 | The clamped key half of section 2.5 of RFC 8439 |
| Poly1305.AbsorbAll | tweetnacl.c:210-235 | The loop accumulates every block, the short last one included, as RFC 8439 does |
| Poly1305.OneTimeAuth | tweetnacl.c:196-247 | Writes the Poly1305 tag of section 2.5 of RFC 8439, also when the output lies over key or message, and nothing else |
| SecretBox.OpenSeal | tweetnacl.c:256-276 | Opening a sealed message gives it back, for every key, nonce and message with 32 leading zeros |
| SecretBox.SealOpen | tweetnacl.c:256-276 | Whatever opens has 32 leading zeros and seals back to the box |
| SecretBox.SalsaXorAt | tweetnacl.c:136-161 | The keystream at a byte does not depend on the message's length or other bytes |
| SecretBox.SigmaText | tweetnacl.c:134-134 | The constant spells expand 32-byte k |
| SecretBox.Increment | tweetnacl.c:146-151 | The carry loop steps the 8-byte little-endian block counter, wrapping at 2^64 |
| SecretBox.StreamSalsa20Xor | tweetnacl.c:136-161 | The stream with the right counter at every block, in place or between buffers, with or without a message; nothing else is written |
| SecretBox.CryptoStreamXor | tweetnacl.c:168-180 | The XSalsa20 stream: HSalsa20 subkey, then the stream under the last eight nonce bytes |
| SecretBox.Vn | tweetnacl.c:65-70 | 0 when all bytes agree, otherwise -1, through the borrow of an unsigned subtraction |
| SecretBox.OneTimeAuthVerify | tweetnacl.c:249-254 | 0 exactly for the right tag |
| SecretBox.CryptoSecretBox | tweetnacl.c:256-264 | Fails below 32 bytes; otherwise seals, with the tag written over the key it was computed under |
| SecretBox.CryptoSecretBoxOpen | tweetnacl.c:266-276 | Succeeds exactly on a box with the right tag, and writes nothing when it fails |
| Field25519.CarriedCong | tweetnacl.c:284-294 | A carry pass keeps the value modulo 2^255 - 19, for all limbs |
| Field25519.CarriedTight | tweetnacl.c:284-294 | A second pass leaves limb 0 in [-38, 2^16 + 38) and the others in [0, 2^16) |
| Field25519.CarriedStrict | tweetnacl.c:311-313 | A third pass leaves every limb in [0, 2^16) |
| Field25519.Car25519 | tweetnacl.c:284-294 | The pass in place, every intermediate inside 64 signed bits |
| Field25519.MulColumns | tweetnacl.c:367-369 | The schoolbook columns weigh exactly the product and fit 64 signed bits |
| Field25519.Fold | tweetnacl.c:370-371 | Folding the upper columns in 38 times keeps the value modulo 2^255 - 19 |
| Field25519.M | tweetnacl.c:365-374 | Multiplication modulo 2^255 - 19 for limbs strictly between -2^26 and 2^26, also when the arrays are the same, with tight limbs as result |
| Field25519.S | tweetnacl.c:376-379 | Squaring, in place or not |
| Field25519.PowerStep | tweetnacl.c:386-389 | One step of square-and-multiply doubles the exponent and adds the bit, inside the bounds M needs |
| Field25519.InvExpIs | tweetnacl.c:386-389 | The two skipped bits make the exponent 2^255 - 21 |
| Field25519.Inv25519 | tweetnacl.c:381-391 | x^(2^255 - 21) modulo 2^255 - 19 for every x, also in place |
| Field25519.Pow2523ExpIs | tweetnacl.c:398-401 | The skipped bit makes the exponent 2^252 - 3 |
| Field25519.Pow2523 | tweetnacl.c:393-403 | x^(2^252 - 3) modulo 2^255 - 19 for every x, also in place |
| Field25519.SelSwaps | tweetnacl.c:298-302 | The mask made of the bit swaps two 64-bit limbs or leaves them |
| Field25519.Sel25519 | tweetnacl.c:296-304 | Swaps all limbs when the bit is 1 and none when it is 0 |
| Field25519.BorrowDecides | tweetnacl.c:315-322 | The last borrow of the chain shows exactly when the value is below p, and without it the limbs are the difference |
| Field25519.SubtractRound | tweetnacl.c:314-324 | One round of the borrow chain and the select subtracts p exactly when that leaves a value of at least 0 |
| Field25519.Pack25519 | tweetnacl.c:306-329 | The little-endian canonical representative in [0, p) |
| Field25519.PackedDecides | tweetnacl.c:306-337 | Packed forms are equal if and only if the values are congruent modulo p |
| Field25519.Neq25519 | tweetnacl.c:331-337 | 0 exactly for congruent values, otherwise -1 |
| ModL.FoldLimb | tweetnacl.c:692-699 | One pass takes 16 x[i] 2^(8(i-32)) times the order off, leaves balanced limbs, and never leaves 64 signed bits |
| ModL.FoldAll | tweetnacl.c:691-700 | All passes keep the value modulo the order, empty the upper half and leave limbs of at most 129 in size |
| ModL.QuotientFits | tweetnacl.c:702-703 | Taking the order off as often as the top limb says leaves less than one order, up to sign |
| ModL.Subtract | tweetnacl.c:701-706 | The loop subtracts with floored carries; its carry out is the sign |
| ModL.AddBack | tweetnacl.c:707-707 | Adds the order exactly when the difference was negative |
| ModL.Emit | tweetnacl.c:708-711 | Carries the limbs out as bytes |
| ModL.OrderValue | tweetnacl.c:686-686 | The table spells 2^252 + 27742317777372353535851937790883648493, section 5.1 of RFC 8032 |
| ModL.Reduce | tweetnacl.c:688-712 | The 32 bytes of the unique representative in [0, L) of the 64-limb input, for limbs up to 2^21 in size |
| Sha256.ChMaj | sha256.c:80-81 | The rewritten Ch and Maj are those of FIPS 180-4 on all words |
| Words.RotrLowBits | sha256.c:83-83 | A rotation moves every upper bit down by its amount |
| Words.RotrHighBits | sha256.c:83-83 | The lowest bits come in again at the upper end |
| Sha256Constants.RoundConstant | sha256.c:124-188 | Each of the 64 round constants is the first 32 bits of the fractional part of the cube root of its prime, section 4.2.2 of FIPS 180-4 |
| Sha256Constants.InitialWord | sha256.c:231-249 | Each initial word is the first 32 bits of the fractional part of the square root of its prime, section 5.3.3 of FIPS 180-4 |
| Sha256Laws.WordOfBytes | sha256.c:45-77 | be32dec undoes be32enc, on all words |
| Sha256Laws.AbcDigestBytes | sha256.c:45-60 | The highest byte comes first |
| Sha256Laws.AbcFirstRound | sha256.c:79-101 | The first round of the standard's example: fixes the rotations and shifts of the two sums and the places of their terms |
| Sha256Laws.AbcLastWord | sha256.c:86-119 | The last schedule word of the standard's example |
| Sha256Laws.BigEndianValue | sha256.c:209-228 | The big-endian bytes of a number have that number as their value |
| Sha256Laws.PaddingLength | sha256.c:209-228 | The last eight bytes of the padding are the bit length modulo 2^64 |
| Sha256Laws.AbcPadding | sha256.c:201-228 | The padding of a three-byte message, written out |
| Sha256.WritesShift | sha256.c:89-101 | Two in-place writes at the rotating index are the shift of all eight registers |
| Sha256.RndIsRound | sha256.c:89-101 | A round of the code is a round of section 6.2.2 of FIPS 180-4 seen through the moving start |
| Sha256.PrepareSchedule | sha256.c:116-119 | The message schedule of section 6.2.2 |
| Sha256.Mix | sha256.c:124-188 | All 64 rounds in place are the 64 register-shifting rounds |
| Sha256.Transform | sha256.c:108-199 | The compression function of section 6.2.2, for every state and block |
| Sha256Stream.Context.Init | sha256.c:240-249 | The context of the empty message |
| Sha256Stream.Context.Update | sha256.c:255-292 | State, bit count and buffer afterwards are those of the longer message, wherever the cut falls |
| Sha256Stream.Context.Pad | sha256.c:209-228 | Padding ends on a block boundary with the bit length, section 5.1.1 of FIPS 180-4 |
| Sha256Stream.Context.Final | sha256.c:299-311 | The digest of the whole message |
| Sha256Stream.HashBuf | sha256.c:317-325 | The one-shot hash |
| Sha256Stream.HashPieces | sha256.c:240-311 | However a message is cut into updates, the digest depends only on the concatenation |
| Sha256Stream.HmacContext.Init | sha256.c:332-366 | Inner and outer contexts hold the masked key block, a long key hashed first |
| Sha256Stream.HmacContext.Update | sha256.c:372-378 | The inner context takes the text |
| Sha256Stream.HmacContext.Final | sha256.c:385-401 | The digest is HMAC of section 2 of RFC 2104 |
| Sha256Stream.HmacBare | sha256.c:348-365 | Under the empty key the masks are seen bare: 54 inside, 92 outside, section 2 of RFC 2104 |
| Sha256Stream.HmacKeys | sha256.c:341-346 | A key longer than a block stands for its digest, and zeros behind a shorter one change nothing |
| Sha256Stream.HmacBuf | sha256.c:408-417 | HMAC in one call |
| Sha256Stream.MacaroonHmac | port.c:95-105 | HMAC under the key cut or zero-padded to 32 bytes |
| VarInt.PackUnpack | varint.c:17-59 | unpackvarint undoes packvarint for every 64-bit value, whatever follows |
| VarInt.PackShortest | varint.c:17-59 | packvarint writes the shortest of the encodings unpackvarint accepts for a value |
| VarInt.PackText | varint.c:17-30 | One and two byte encodings, written out |
| VarInt.PackVarint | varint.c:17-30 | Writes exactly the encoding, and nothing beside it |
| VarInt.VarintLength | varint.c:61-73 | The length of the encoding |
| VarInt.UnpackVarint | varint.c:32-59 | Or-ing shifted groups in computes their sum modulo 2^64; at most ten groups are read |
| FormatV2.RoundTrip | v2.c:120-315 | Every macaroon is rebuilt from its encoding, whatever bytes follow and wherever it lies; no encoding reaches a wrapping length |
| FormatV2.PrefixFree | v2.c:120-315 | Encodings are injective and none is a prefix of another |
| FormatV2.Canonical | v2.c:226-315 | Whatever is accepted re-encodes, to no more bytes than were read, and reads back the same |
| FormatV2.CaveatText | v2.c:40-46 | A third-party caveat with short fields is 1, length, cl, 2, length, cid, 4, length, vid, 0, byte by byte |
| FormatV2.PredicateText | v2.c:40-46 | A first-party caveat is 2, length, cid, 0 |
| FormatV2.MacaroonText | v2.c:120-151 | What stands around the caveats, byte by byte: 2, 1, length, location, 2, length, identifier, 0 in front and 0, 6, length, signature behind |
| FormatV2.SizeHint | v2.c:56-86 | One more than the length of the encoding |
| FormatV2.EmitRequiredField | v2.c:88-101 | Writes the field exactly when it fits, and otherwise nothing |
| FormatV2.EmitOptionalField | v2.c:103-109 | Writes nothing for an empty field |
| FormatV2.EmitCaveat | v2.c:137-141 | The four emits of the loop body succeed exactly when the caveat's encoding fits |
| FormatV2.Serialize | v2.c:120-151 | Succeeds exactly when the buffer holds the encoding, which it then writes without a byte more |
| FormatV2.ComparisonExact | v2.c:167-167 | The 64-bit pointer comparison is the check that the payload lies in the buffer if and only if the sum does not wrap, for every address, buffer size, offset and length |
| FormatV2.WrapPasses | v2.c:158-173 | Where the walk reaches a wrapping length, the comparison lets a payload pass that is not in the buffer |
| FormatV2.WrappingInput | v2.c:226-315 | Seventeen bytes that lead the code to a wrapping sum, wherever they lie |
| FormatV2.ParseField | v2.c:153-175 | Type and length as varints, and the payload inside the input, when the length does not make the pointer sum wrap; a type above 255 is refused |
| FormatV2.TypeAsserted | v2.c:186-214 | The asserted type is always the one that was looked at: the assertions cannot fail |
| FormatV2.ParseOptionalField | v2.c:177-197 | An absent field is empty and moves nothing; a present one parses as parse_field does |
| FormatV2.ParseRequiredField | v2.c:199-216 | Only the asked-for type is accepted; it parses as parse_field does |
| FormatV2.ParseCaveats | v2.c:251-275 | The loop with its doubling table collects every caveat up to the end marker, and their total size, unless it reaches a wrapping length |
| FormatV2.Build | v2.c:282-304 | The block is exactly filled and spells what was parsed |
| FormatV2.Deserialize | v2.c:226-315 | On every buffer at every address on whose walk no pointer sum wraps: accepts exactly what the grammar does and builds the macaroon in memory; trailing bytes are ignored |
| Base64.SextetIsBits | base64.c:142-145 | Group k is bits 6k to 6k + 5 of the input, high bit first, as section 4 of RFC 4648 cuts them |
| Base64.TableText | base64.c:57-58 | The 64 characters in order: upper case, lower case, digits, '-' and '_' |
| Base64.OtherCharacters | base64.c:59-210 | Padding, the two replaced characters and white space, as characters |
| Base64.RoundTrip | base64.c:124-283 | b64_pton gives back what b64_ntop encoded, exactly when the target has room for it |
| Base64.EncodeInjective | base64.c:124-177 | Different byte strings have different texts |
| Base64.SpaceAnywhere | base64.c:200-201 | White space put in anywhere leaves what a text stands for |
| Base64.PaddingAppended | base64.c:203-204 | So does padding added at the end |
| Base64.StandardAlphabet | base64.c:206-210 | So does writing '+' or '/' for '-' or '_' |
| Base64.Canonical | base64.c:185-283 | Whatever decodes is, up to those three, the encoding of the result; the one exception is a stray 'A' behind whole groups of four |
| Base64.StrayAccepted | base64.c:277-282 | The exception occurs: the text "A" decodes to no bytes |
| Base64.Ntop | base64.c:124-177 | Returns ceil(4n/3) and writes text and NUL exactly when the target has room, a partial group counted as four; otherwise -1 |
| Base64.PutGroup | base64.c:216-264 | One pass through the switch keeps whole bytes and pending bits in the target, or nothing that follows can be accepted |
| Base64.Pton | base64.c:185-283 | Returns the decoded length and bytes, or -1, exactly as the text, its leftover bits and the target size decide; writes nothing behind the target size |
| Packet.PacketHeader | packet.c:50-61 | Four hexadecimal digits |
| Packet.HexText | packet.c:53-53 | The digits are those of the table 0123456789abcdef |
| Packet.LineText | packet.c:143-159 | A line shorter than 256 bytes, character by character |
| Packet.SerializeSlice | packet.c:143-159 | Header, key, space, value and newline, and nothing beside them |
| Packet.NextOfLine | packet.c:63-99 | parse_packet cuts a written line off whatever follows |
| Packet.SizeFits | packet.c:70-89 | The size stays inside its 32-bit variable, even with NUL bytes, which the digit search finds as 16 |
| Packet.ParsePacket | packet.c:63-99 | The end of the packet, when four digits and the announced bytes are there |
| Packet.KeyValueOfLine | packet.c:101-141 | Key and value come back, whatever spaces, newlines or NULs the value has |
| Packet.LineOfKeyValue | packet.c:101-141 | A packet that parses is the line of its key and value, and no other |
| Packet.ParseKv | packet.c:101-141 | Accepts exactly the well-formed lines |
| FormatV1.RoundTrip | v1.c:111-340 | What is written reads back if and only if the signature has 32 bytes and every caveat an identifier |
| FormatV1.KeyTexts | constants.h:34-50 | The packet keys, spelled |
| FormatV1.PacketsText | v1.c:136-158 | A macaroon with one caveat, packet by packet |
| FormatV1.EmptyCidLost | v1.c:142-145 | A caveat without identifier is lost: a concrete macaroon that comes back without it |
| FormatV1.AcceptedShape | v1.c:262-328 | Whatever is accepted has a 32-byte signature and an identifier in every caveat |
| FormatV1.HintCovers | v1.c:47-109 | The size hint is enough for the packets and for the text base64 makes of them |
| FormatV1.HintExact | v1.c:63-83 | The inner hint is the size of the packets when no field is absent |
| FormatV1.SizeHint | v1.c:63-109 | The sum over all fields, absent ones included, in padded base64, and one |
| FormatV1.EmitCaveat | v1.c:142-155 | Only present fields are written |
| FormatV1.EmitPackets | v1.c:136-158 | All packets, in order, inside the scratch buffer |
| FormatV1.Serialize | v1.c:111-169 | Succeeds exactly when the buffer holds the size hint, and then writes the text and its NUL |
| FormatV1.CountPackets | v1.c:218-229 | Counts the packets of a well-framed buffer and rejects others |
| FormatV1.FewerPacketsThanBytes | v1.c:231-231 | The asserted inequality always holds |
| FormatV1.GoStep | v1.c:232-276 | Why the caveat index stays inside the table counted in the first pass |
| FormatV1.TakePacket | v1.c:271-305 | The branches of the loop: a new entry for an identifier behind one, a failure for a duplicate, an end at anything else; the slices read what was taken |
| FormatV1.LoadCaveats | v1.c:260-315 | The loop builds the caveats of the packets it runs over, inside table and body |
| FormatV1.StopsAtPacket | v1.c:317-319 | The asserted packet before the signature is there |
| FormatV1.ParseTyped | packet.c:184-329 | The typed packet parsers return the value for their own key only |
| FormatV1.CopyIfParses | packet.c:161-182 | The value of a packet that parses, copied; nothing otherwise |
| FormatV1.Deserialize | v1.c:171-340 | Builds exactly the macaroon that the packets spell, or none, for every text but those that FormatV1.Verdict.Undefined describes; a last packet that is a duplicate when it is seen again is rejected |
| FormatV1.TextRoundTrip | v1.c:111-340 | Base64 and packets together give the macaroon back when the buffer is as long as the packets |
| Formats.Serialize | macaroons.c:979-1003 | Length and contents for every macaroon the format can print; 0 exactly when the buffer is smaller than the format asks for, and always for JSON |
| Formats.Deserialize | macaroons.c:1005-1040 | The first byte decides the format; the result is the macaroon that format reads, in memory, or none, wherever the code is defined: a text needs a NUL, and the other format no wrapping length |
| Formats.FirstByte | macaroons.c:1005-1031 | What one format writes is never taken for the other |
| Formats.V1CharsDecode | macaroons.c:1005-1017 | The characters that mean the first format are those that base64 decodes, in either alphabet, and NUL |
| Formats.RoundTrip | macaroons.c:979-1040 | A receiver who has the bytes that macaroon_serialize counted, and a NUL behind a text, reads the macaroon back, whatever else is in memory and wherever the bytes lie |

## Left out

- Signatures that are not 32 bytes and vids of neither 0 nor 72 bytes: the verifier's results ask for `Env.Valid`, because the status words leave 0, 1 and -1 otherwise.
- FormatV1.Deserialize: does not say what happens on packets of size zero, on which the counting loop never ends, or when caveat packets run to the end of the buffer and the last one, seen again, is no duplicate; `FormatV1.Verdict.Undefined` is exactly these inputs.
- FormatV2.Deserialize: does not say what happens after a pointer sum has wrapped; `FormatV2.Parsed.Wraps` is exactly these inputs.
- FormatV2.Serialize: forms `*ptr + sz` of v2.c:94 without wrap-around. A field in memory beside the buffer can make that sum wrap only when the buffer lies in the upper half of the address space.
- Formats.Deserialize: does not say what is read behind a buffer without a NUL, or after a wrapped sum.
- Construction.Copy: asks for a signature of at most 32 bytes, because macaroon_copy reserves 32 bytes for it whatever its size.
- Field25519.Inv25519: states the power with exponent p - 2; that this is the inverse would need that p is prime, which is not proved.
- Field25519.Sel25519: asks for a bit of 0 or 1, the only values its callers pass.
- ModL.Reduce: asks for limbs of at most 2^21 in size; crypto_sign and reduce pass sums of at most 32 products of bytes and a byte, which are smaller.
- Base64.Pton: the variant without a target is not modelled; nothing in the library calls it. Bytes above 127 are not white space, as in the C locale.
- Sha256.Mix: the 64 unrolled round lines are a loop over their constants.
- Sha256Stream.Context.Update: the bit count is kept modulo 2^64 as in the code, and the padding specification uses it so; FIPS 180-4 defines digests below 2^64 bits only.
- Verifier.Verify: reads macaroons as values, since it never writes to them; callbacks are functions of the predicate alone.
- The JSON format: off by default, and its printer escapes nothing, so a round trip would need many side conditions.
- macaroon_cmp: compares common prefixes only, so equality of macaroons in the round trips is structural.
- Curve operations, the Montgomery ladder, Ed25519 and SHA-512 in tweetnacl.c, and PBKDF2: not used by macaroons.
- Failure of malloc, the *err variable on success, and memory wiping.
- Timing: the constant-time comparisons are modelled by their results.
- Random nonces are parameters.
- Null slices: a slice that was never set reads as empty.
- Pointer wrap-around elsewhere than in parse_field: positions in a buffer are natural numbers.
- The assertions on string lengths below 32768 are preconditions of the functions that make them; the verifier and the formats do without.
- inspect output, hexadecimal helpers, accessors, the Go and Python bindings, the test drivers.
- Unforgeability: no claim about what an adversary can compute, nor that HMAC-SHA256 tells a given set of pairs apart.
- Sha256Constants.RoundConstant: that the listed primes are the first 64 is not proved, only displayed.
