# A verified model of `dump`

`cmd/dump` decodes Reticulum objects into named fields and rebuilds the objects from the fields. Under it lie a
vendored curve library, an AES decryption, SHA-256, HMAC and HKDF; beside it, `tools/gen` holds a second reader
of the same msgpack bytes. This project models that code in Dafny and proves what it is for.

Check everything with `dafny verify dfyconfig.toml`.

## How the model is laid out

**Curve arithmetic** (`cmd/tweetnacl.c`). `Arith` and `Bits` hold positional values, residues and bitwise
operations on two's complement integers. `Field` is the sixteen-limb arithmetic: arrays of 64-bit integers,
updated in place, against residues modulo p = 2^255 - 19; `>>` is floor division and `& 0xffff` the residue.
Every array element has a 64-bit subset type, so that no store overflows is part of each proof. `X25519` states
the function of section 5 of RFC 7748 and proves the limb ladder equal to it. `Groups`, `Ed25519` and `Curve` do
the same for the Edwards ladder; `ScalarL` for reduction modulo L. `Points` packs and unpacks points, `Complete` shows that
sums of points are points, and
`Signature` puts the pieces together: key pairs, signing, opening, verification.

**Hashes and ciphers.** `Words` models unsigned words; `Sha512`, `Sha256`, `Hkdf`, `Gf256`, `SBox`, `Aes` and
`Token` state the standards (FIPS 180-4, RFC 2104, RFC 5869, FIPS 197, SP 800-38A) as functions and prove the
programs, with their buffers filled in place, equal to them.

**Msgpack** (`cmd/dump.c`, `tools/gen`). `Msgpack` defines the cursor and an independent grammar of encoded
values; `Cursor` has the struct with its pointer, count and sticky flag as a class; `Advert` the array bodies and
the advertisement read by key; `Readers` the second reader and the agreement of the two; `Described` the eleven
fields as the generator prints them.

**Decoder and encoder** (`cmd/dump.c`). `Text`, `Packet` and `Decode` say what is printed for every kind,
`Encode` how lines are rebuilt, `RoundTrip` and `Kinds` that the one undoes the other. `Ifac` is the framing
behind an access code and `Relay` what a packet keeps while it travels. Hashes, signatures, key agreement and
ciphers are parameters of the decoders there: what is proved holds whatever they compute.

Each in-place program is a method whose `ensures` equates its result with a function; what the function means is
proved by lemmas about it. `fatal` and `abort` are a `None`, a `Fatal` or a `false`.

## Where the code and expectations differ

- `pkcs7_unpad` asks only that the last byte is at most 16, so it takes blocks that no padding produces
  (`Aes.PaddedExactly` states exactly which; all that end in a zero byte are among them).
- Behind an honest R, `crypto_sign_open` opens every 32 bytes with the residue of the signed S, S + L among them, and nothing else
  (`Signature.OpenExactly`); the comparison in `ed25519_verify` leaves one (`Signature.VerifyExactly`).
- The generator reads an advertisement's numbers of any width and sign, booleans as numbers, floats as bytes, and
  names written in a longer form; the decoder prints a dash for these and nothing else
  (`Described.FieldsAgree`).
- An encoded destination with more than 35 aspects has more fields than the encoder reads
  (`Kinds.DestinationReturns`).
- A frame whose first bit is clear decodes, but does not come back from its fields (`Ifac.ReEncode`); a packet
  whose first bit is set is framed, but comes back with the bit cleared (`Ifac.Decodes`).

## Model

| member | source | states |
|---|---|---|
| Field.Car | cmd/tweetnacl.c:273-283 | carrying in place writes exactly the array `Carried` describes, for limbs up to 2^62, with every intermediate in 64 bits |
| Field.CarriedKeepsFe | cmd/tweetnacl.c:273-283 | one carry pass keeps the value modulo p |
| Field.CarriedThrice | cmd/tweetnacl.c:299-302 | after three passes every limb of any input below 2^62 is a digit in [0, 2^16) |
| Field.Sel | cmd/tweetnacl.c:285-293 | the mask-and-xor swap exchanges two elements exactly when the bit is 1 |
| Field.SubtractP | cmd/tweetnacl.c:303-311 | one subtraction of p with borrows gives the exact difference, and its borrow says whether the value was below p |
| Field.Pack | cmd/tweetnacl.c:295-318 | packing writes the little-endian bytes of the unique representative in [0, p), for all limbs of magnitude below 2^62 |
| Field.Unpack | cmd/tweetnacl.c:335-340 | unpacking reads 32 bytes modulo 2^255: the top bit is dropped and nothing else |
| Field.A | cmd/tweetnacl.c:342-346 | addition of field elements wherever the sums of limbs fit 64 bits, the output free to be an input |
| Field.Z | cmd/tweetnacl.c:348-352 | subtraction of field elements wherever the differences fit 64 bits, the output free to be an input |
| Field.M | cmd/tweetnacl.c:354-363 | the product modulo p for limbs of magnitude below 2^26, limbs left in [-38, 2^16+38), all sums inside 64 bits, the output free to be an input |
| Field.FoldKeepsFe | cmd/tweetnacl.c:358-361 | folding limbs 16 to 30 back 38-fold keeps the value modulo p |
| Field.Inv25519 | cmd/tweetnacl.c:370-380 | the square-and-multiply loop computes the power p - 2 |
| Field.Pow2523 | cmd/tweetnacl.c:382-392 | the square-and-multiply loop computes the power (p - 5) / 8 |
| X25519.LimbStepIsStep | cmd/tweetnacl.c:410-431 | the order of operations in the limb program is the ladder step of section 5 of RFC 7748 |
| X25519.LadderStep | cmd/tweetnacl.c:410-431 | one ladder step on limbs, in place, keeps every limb in [-38, 2^16+38) |
| X25519.LazyPass | cmd/tweetnacl.c:406-431 | swapping before and after every step gives the pair that the lazily swapped ladder of RFC 7748 gives |
| X25519.ScalarShape | cmd/tweetnacl.c:399-401 | every clamped scalar is a multiple of 8 with its top bit at place 254 |
| X25519.ScalarMult | cmd/tweetnacl.c:394-443 | `crypto_scalarmult` is X25519(k, u) of section 5 of RFC 7748, for every 32-byte scalar and every 32-byte u |
| Ed25519.Constants | cmd/tweetnacl.c:19-20 | the limb constant D satisfies 121666 d = -121665 modulo p, and D2 is 2d |
| Ed25519.AddTo | cmd/tweetnacl.c:588-611 | `add` computes the formulas of section 5.1.4 of RFC 8032, also when both arguments are one point |
| Ed25519.AddKeepsT | cmd/tweetnacl.c:607-610 | every sum satisfies X Y = Z T modulo p |
| Curve.AddOnCurve | cmd/tweetnacl.c:588-611 | the sum of two points of the twisted Edwards curve, in extended coordinates, satisfies the equations of the curve |
| Ed25519.ScalarMultPoint | cmd/tweetnacl.c:630-644 | the limb ladder over all 256 bits refines the ladder over coordinates |
| Groups.RunMultiplies | cmd/tweetnacl.c:636-643 | over any commutative group law the swap ladder keeps q = p + base at every step and ends at [n]base |
| Ed25519.LadderMultiplies | cmd/tweetnacl.c:630-644 | the ladder over coordinates ends at [n]base in every group those coordinates represent |
| Curve.ScalarBase | cmd/tweetnacl.c:646-654 | the multiple of the base point is on the curve and is the one the ladder defines |
| Curve.BaseOnCurve | cmd/tweetnacl.c:21-22 | the base point is on the curve, has y = 4/5, and T = X Y |
| ScalarL.Eliminate | cmd/tweetnacl.c:680-691 | eliminating one limb subtracts the right multiple of L and keeps the bounds the next elimination needs |
| ScalarL.Finish | cmd/tweetnacl.c:692-700 | after the last two passes and the last loop the bytes are the residue in [0, L), one L added back where a borrow left the top |
| ScalarL.ModL | cmd/tweetnacl.c:677-701 | `modL` writes the unique residue modulo L in [0, L), for every input its callers can build, with no overflow |
| ScalarL.Reduce | cmd/tweetnacl.c:703-709 | a 64-byte hash becomes its residue modulo L |
| ScalarL.SignScalar | cmd/tweetnacl.c:735-738 | S is (r + h d) mod L in canonical form |
| ScalarL.ScalarCanonical | cmd/dump.c:287-296 | the byte comparison accepts exactly the scalars below L |
| ScalarL.NonCanonicalRefused | tools/gen:1246-1257 | S + L fits in 32 bytes, is S modulo L, and is never below L |
| Points.PackPoint | cmd/tweetnacl.c:620-628 | packing a point is the encoding of section 5.1.2 of RFC 8032: y, with the low bit of x on top |
| Points.UnpackPoint | cmd/tweetnacl.c:743-777 | `unpackneg` on limbs decides and computes what its specification over residues says |
| Points.UnpackSound | cmd/tweetnacl.c:743-777 | whatever unpacks is on the curve, has the y of the string, and an x of the parity opposite to the top bit |
| Points.RootIs | cmd/tweetnacl.c:758-771 | if p is prime, the root found for a quotient of squares is one of its two roots |
| Points.UnpackEncode | cmd/tweetnacl.c:743-777 | if p is prime, every affine point of the curve unpacks from its encoding to its negation |
| Complete.NeverUnit | cmd/tweetnacl.c:588-611 | if p is prime and d is no square, d x1 x2 y1 y2 is never 1 or -1 for two points of the curve |
| Complete.SumIsPoint | cmd/tweetnacl.c:588-611 | under the same hypotheses the sum of any two points has Z not 0: `add` is complete, doubling and neutral elements included |
| Complete.OppositeSum | cmd/tweetnacl.c:743-777 | what `unpackneg` gives for a point adds up with it to the neutral element |
| Signature.KeyPair | cmd/tweetnacl.c:656-674 | a key pair is the clamped hash times the base point, encoded |
| Signature.SignInto | cmd/tweetnacl.c:711-741 | `crypto_sign` is signing as in section 5.1.6 of RFC 8032 |
| Signature.OpenInto | cmd/tweetnacl.c:779-809 | `crypto_sign_open` compares R with the encoding of [S]B - [k]A |
| Signature.SignatureEquation | cmd/tweetnacl.c:735-738 | over any commutative group in which B has order l, [z]B - [k]A = R exactly when z = r + k s modulo l |
| Signature.OpenExactly | cmd/tweetnacl.c:779-809 | behind an honest R, `crypto_sign_open` opens 32 bytes exactly when they encode the residue of r + k s modulo L |
| Signature.OpenSign | cmd/tweetnacl.c:711-809 | every signed message opens under the key of its seed, to the message itself |
| Signature.VerifySigned | cmd/dump.c:298-314 | every signature that is written passes `ed25519_verify` |
| Signature.VerifyExactly | cmd/dump.c:278-306 | behind an honest R, `ed25519_verify` accepts one scalar and no other, the one that was written |
| Signature.SecondSignature | cmd/dump.c:278-306 | the signature with S + L in place of S is opened by the library and refused by `ed25519_verify` |
| Sha512.Advance | cmd/tweetnacl.c:535-537 | the sixteen words moved on in place are the next sixteen words of the eighty-word schedule |
| Sha512.RoundInto | cmd/tweetnacl.c:530-534 | copying, changing two words and rotating by one place is the standard's assignment of a to h |
| Sha512.HashBlocks | cmd/tweetnacl.c:519-549 | every whole block is folded into the state, and the number of bytes left over is returned |
| Sha512.PaddedTail | cmd/tweetnacl.c:569-581 | the message up to its last block edge followed by the tail is the padded message of section 5.1.2 of FIPS 180-4 |
| Sha512.HashInto | cmd/tweetnacl.c:562-586 | `crypto_hash` is SHA-512 for every message a 64-bit length can name |
| Sha256.CompressInto | cmd/sha256.c:28-61 | `block` is the compression of section 6.2.2 of FIPS 180-4 |
| Sha256.FillTail | cmd/sha256.c:76-86 | the leftover bytes, the one bit, zeros and the length fill exactly one or two blocks |
| Sha256.HashInto | cmd/sha256.c:63-96 | `sha256` is the compression fold over the padded message, for every length |
| Hkdf.HmacInto | cmd/hmac.c:12-37 | `hmac_sha256` is HMAC of section 2 of RFC 2104 over any 32-byte hash, and stops above its message limit |
| Hkdf.DeriveInto | cmd/hmac.c:41-79 | `hkdf_sha256` is extract and expand of section 2 of RFC 5869, and stops exactly on an empty input or output or where a message it hashes exceeds 8192 bytes |
| Hkdf.ExpandPrefix | cmd/hmac.c:60-78 | a shorter output is a prefix of a longer one |
| Gf256.Multiply | cmd/aes.c:64-76 | the double-and-add loop computes the product |
| Gf256.MulIsField | cmd/aes.c:59-76 | that product is multiplication of polynomials modulo x^8 + x^4 + x^3 + x + 1 |
| SBox.SubBack | cmd/aes.c:18-54 | the second table undoes the first at every byte |
| SBox.SubIsAffineInverse | cmd/aes.c:18-35 | every entry of the first table is the affine map of the multiplicative inverse, as section 5.1.1 of FIPS 197 defines it |
| Aes.RconTable | cmd/aes.c:55-57 | the round constants are the powers of x in the field |
| Aes.ExpandKey | cmd/aes.c:78-107 | the expanded key holds the words of the schedule of section 5.2 of FIPS 197, for 16- and 32-byte keys |
| Aes.UnshiftRows | cmd/aes.c:126-136 | the exchanges in place are InvShiftRows |
| Aes.MixColumnsBack | cmd/aes.c:138-150 | InvMixColumns undoes MixColumns |
| Aes.DecryptBlock | cmd/aes.c:152-168 | `decrypt_block` in place is the inverse cipher of section 5.3 of FIPS 197 |
| Aes.CipherBack | cmd/aes.c:152-168 | the inverse cipher undoes the cipher, whatever the round keys |
| Aes.CbcDecryptInto | cmd/aes.c:170-200 | `aes_cbc_decrypt` checks its lengths and undoes the chaining block by block |
| Aes.CbcBack | cmd/aes.c:189-197 | decryption undoes CBC encryption for every key schedule, vector and number of blocks |
| Aes.PlaintextBack | cmd/aes.c:170-214 | every plaintext of any length comes back through padding, encryption, decryption and unpadding |
| Aes.PaddedExactly | cmd/aes.c:203-214 | exactly which bytes were padded: those `pkcs7_unpad` takes whose last byte is not 0 and stands in all the places it counts; the source checks neither, so everything else it takes was never padded |
| Token.Open | cmd/dump.c:708-740 | `token_open` with a key decides and decrypts as its specification says |
| Token.OpenSeal | cmd/dump.c:708-740 | every token made with a 32- or 64-byte key opens to its plaintext |
| Cursor.Mp.SkipScalar | cmd/dump.c:1175-1200 | stepping over a value that is no container moves the cursor as the grammar says |
| Cursor.Mp.SkipValueHead | cmd/dump.c:1175-1229 | stepping over a value whose head is read, by recursion over containers, ends with the bytes left |
| Cursor.Mp.SkipValue | cmd/dump.c:1231-1234 | `mp_skip` on the cursor is the step over one value |
| Msgpack.SkipComplete | cmd/dump.c:1175-1234 | on an encoding followed by anything the cursor stops exactly at what follows, for every nested value |
| Msgpack.SkipSound | cmd/dump.c:1175-1234 | whenever the cursor ends good, the bytes it stepped over are the encoding of a value |
| Msgpack.PrefixUnreadable | cmd/dump.c:1175-1234 | no strict prefix of an encoding can be stepped over |
| Cursor.TypedReadsSkip | cmd/dump.c:1236-1284 | a typed read that succeeds leaves the cursor where stepping over the value would |
| Cursor.BadIsSticky | cmd/dump.c:1114-1284 | a bad cursor reads nothing and never moves |
| Cursor.Mp.ReadKey | cmd/dump.c:1236-1253 | `mp_key` returns the one-character key, or 0 after stepping over any other value |
| Cursor.Mp.ReadUint | cmd/dump.c:1255-1265 | `mp_uint` on the cursor is its specification |
| Cursor.Mp.ReadBin | cmd/dump.c:1267-1277 | `mp_bin` on the cursor is its specification |
| Cursor.Mp.ReadDouble | cmd/dump.c:1279-1284 | `mp_double` on the cursor is its specification |
| Advert.RunThenDashes | cmd/dump.c:1286-1315 | the printed fields of an array are a run of values read in turn, then dashes to the end |
| Advert.PrintAdvertisement | cmd/dump.c:1343-1408 | the loop over the pairs and the eleven copies of the cursor print what the specification says |
| Advert.MapFieldsExact | cmd/dump.c:1343-1408 | on a complete map the eleven fields are a function of the values bound to the eleven names, each field on its own, and all are dashes when a name is bound twice |
| Advert.OnlyBindingsMatter | cmd/dump.c:1343-1408 | maps that bind the same values to the eleven names print the same fields |
| Advert.OrderDoesNotMatter | cmd/dump.c:1343-1408 | exchanging two neighbouring pairs changes nothing |
| Advert.ForeignPairIgnored | cmd/dump.c:1343-1408 | a pair under any other key, of any nested type, changes nothing |
| Advert.CutMapIsNothing | cmd/dump.c:1343-1408 | an advertisement cut anywhere before its end prints eleven dashes |
| Readers.ReadComplete | tools/gen:420-561 | the second reader reads exactly the encoded value, for every value with distinct string or number keys |
| Readers.ReadCut | tools/gen:407-561 | on every strict prefix the second reader returns something `incomplete` accepts |
| Readers.ReadersAgree | tools/gen:407-561 | the two readers consume the same bytes of every such value, and both notice every cut |
| Described.FieldsAgree | tools/gen:3230-3258 | decoder and generator print the same eleven fields of every such value, but for the pairs `Parts` names: those the generator prints and the decoder does not |
| Packet.ParseAssembles | cmd/dump.c:493-531 | the header fields and the payload are the packet, byte for byte |
| Packet.AssembleParses | cmd/dump.c:493-531 | every header whose flags say what it holds parses back from its bytes |
| Packet.AnnounceParts | cmd/dump.c:533-560 | the six parts of an announce are its payload, with and without a ratchet |
| Decode.SplitName | cmd/dump.c:393-403 | the scan over a name prints the components between its dots |
| Encode.FindField | cmd/dump.c:221-231 | `lookup` returns the first field of a name |
| RoundTrip.PutHexDecodes | cmd/dump.c:1833-1848 | `put` takes a text exactly when it decodes to bytes that still fit, and appends those bytes |
| Encode.Out.AddHops | cmd/dump.c:1874-1883 | `put_hops` accepts what `strtoul` consumes whole and is below 128, white space, signs and wrapping included |
| RoundTrip.PutContextExact | cmd/dump.c:1885-1898 | `put_context` appends the byte whose name or digits are printed |
| Encode.Out.AddHeader | cmd/dump.c:1900-1907 | `put_header` appends flags, hops, transport id, destination and context |
| Encode.EncodeLayout | cmd/dump.c:1921-1944 | `encode_layout` prints the lines its layout defines |
| Encode.EncodeLinkData | cmd/dump.c:2005-2020 | `encode_linkdata` packs the plaintext or the token, as the encrypted field says |
| RoundTrip.ContextRoundTrip | cmd/dump.c:608-640 | every context byte is read back from its name or its two digits |
| RoundTrip.PacketRebuilt | cmd/dump.c:1866-1944 | fields that show a header and hold its payload in chunks rebuild the packet |
| Kinds.AnnounceReturns | cmd/dump.c:877-891 | announces come back |
| Kinds.PathRequestReturns | cmd/dump.c:906-953 | path requests come back, with and without a requester |
| Kinds.EncryptedReturns | cmd/dump.c:780-840 | encrypted packets and both keys come back |
| Kinds.GroupReturns | cmd/dump.c:842-875 | group packets and the group key come back |
| Kinds.LinkRequestReturns | cmd/dump.c:1008-1034 | link requests come back, with and without signalling |
| Kinds.LinkProofReturns | cmd/dump.c:1036-1089 | link proofs, the request and the signer come back |
| Kinds.LinkDataReturns | cmd/dump.c:1462-1605 | link packets come back whatever their plaintext says, sealed or in the clear |
| Kinds.ProofReturns | cmd/dump.c:1607-1680 | packet proofs come back in both forms |
| Kinds.ResourceProofReturns | cmd/dump.c:1682-1709 | resource proofs come back, and a wrong length stops the encoder |
| Kinds.DestinationReturns | cmd/dump.c:373-412 | destinations come back exactly when the name has at most 35 aspects |
| Kinds.EncodeClass | cmd/dump.c:2034-2059 | for every kind with an encoder and every input it decodes, rebuilding gives back every line byte for byte, or stops, and stops exactly when the decoder rejected the packet or a destination has more than 35 aspects |
| Ifac.MaskInto | cmd/dump.c:1743-1761 | `ifac_mask` masks everything but the access code |
| Ifac.UnwrapWrap | cmd/dump.c:1763-2003 | taking apart what was framed gives the access code and the packet with its first bit cleared |
| Ifac.WrapUnwrap | cmd/dump.c:1763-2003 | framing what was taken apart gives the frame with its first bit set |
| Ifac.Encodes | cmd/dump.c:1956-2003 | `encode_ifac` writes the four lines of the framed packet from its fields |
| Ifac.Decodes | cmd/dump.c:1763-1815 | `dump_ifac` shows that access code and that packet, finds the code valid exactly when it ends the signature, and the packet is unchanged exactly when its first bit was clear |
| Ifac.ReEncode | cmd/dump.c:1763-2003 | rebuilding a decoded frame gives it back exactly when the first bit of the frame was set |
| Relay.AssembleHashable | cmd/dump.c:955-963 | `hashable_part` writes the hashable part |
| Relay.GeneratorAgrees | tools/gen:1805-1822 | the generator and the decoder hash the same bytes, with and without the payload length |
| Relay.RelayKeeps | tools/gen:1426-1430 | relaying keeps hashable part, link id preimage, destination, context and payload, and the packet still parses |
| Relay.HashableDetermines | cmd/dump.c:955-983 | two packets have one hashable part exactly when they agree on low flag bits, destination, context and payload |
| Relay.LinkIdDetermines | cmd/dump.c:965-975 | two packets have one link id preimage exactly when they agree on low flag bits, destination, context and the first 64 payload bytes |
| Relay.HeaderOneTwins | cmd/dump.c:955-963 | header 1 packets with one hashable part differ at most in high flag bits and hops |

## Left out

- Reading files, splitting lines, argument handling and printing: blobs and field lists are the model's inputs and
  outputs. A field list longer than 40 entries is refused as the reader refuses it; the limits on the length of
  one line and one value are not modelled, and no value a decoder prints reaches them.
- Field names are an enumeration, so that comparing two of them is equality; the width they are printed in is not
  modelled.
- A rebuilding that stops half way has already printed its first lines; the model returns nothing for it.
- Ed25519 and X25519 hypotheses: that p is prime and d no square modulo it, that the addition of points is
  associative, and that the base point has order L are stated as hypotheses where they are used
  (`Points.PrimeField`, `Complete.NonSquare`, `Signature.CurveGroup`), not proved. That sums are points and that
  negation is the inverse is proved from the first two.
- ScalarL.ModL: the source multiplies `16 * x[i] * L[j]` in an unsigned type; the model computes on integers and
  shows that the true values fit 64 signed bits, so that wrapping never happens.
- Msgpack.SkipComplete: `mp_skip` passes counts and lengths as machine words; the widths read are at most eight
  bytes, and the model's numbers are unbounded.
- Left shifts of negative limbs are given their mathematical meaning.
- SHA-512 and SHA-256 words are integers with explicit residues modulo 2^64 and 2^32; `|` of words that share no
  bit is their sum.
- Hkdf.DeriveInto: above 255 blocks the source goes on with the counter modulo 256, and so does the model; the
  standard defines no such output. A context above 8223 bytes overruns a buffer before the program stops; the
  model stops.
- Aes: bytes are 8-bit vectors there and integers elsewhere; the substitution tables are functions by rows.
- The copies of `struct mp` that the advertisement keeps are values; Cursor.Mp.Restore makes a cursor of one.
- Readers: the second reader is a function, because its loops only build the value it returns. Floating point
  values are kept as their bytes, and whether a text is UTF-8 is a parameter. Four-byte widths, repeated foreign
  keys, invalid UTF-8 and bytes after a value are outside the domain of the agreement, where the two readers
  differ on purpose.
- Decode: a link request too short to hold a key is cut to what there is where the source reads on into its
  buffer; the key agreement it feeds is a parameter.
- `dump_signature` and `dump_sign`: they have no encoder, and print one verification or one signature.
- Salsa20, Poly1305, secretbox and box: the program never calls them.
- `conformance/`, `cmd/check` and the parts of `tools/gen` that run the Python reference.
- Collision resistance, unforgeability and constant time.
