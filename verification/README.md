# Telex: tag cryptography, station parsers and client relay in Dafny

Telex hides requests to a proxy inside ordinary TLS connections. A client marks a connection with a
tag that only the station can recognise; the station shares its parsing and storage code with the Bro
traffic analyser, and the client relays bytes between a local program and the tunnel. This project
models the parts of the repository with the most state and arithmetic and proves what they are for.

Six groups of modules, each building to one or two main results:

- **Tag cryptography** (`Fp`, `Limbs`, `Felem`, `FelemPow`, `Curve`, `Group`, `Jacobian`, `Point`, `PointMul`,
  `Bytes`, `Twist`, `Ptwist`, `Tag`, with `Bits` and `Int128` below). Limb arrays and machine words
  are Dafny arrays and bounded newtypes, so every addition, subtraction and multiplication carries the
  proof that it stays in its word. Limbs refine residues modulo p = 2^168 - 2^8 - 1, the addition
  chains compute powers, the Jacobian formulas compute the affine group law in every case, the window
  loop refines scalar multiplication, and the client and the station derive the same key
  (`Tag.Exchange`). Two facts are hypotheses, written as predicates in the contracts that use them:
  p is prime (`Fp.PrimeP`) and addition on the curve is associative (`Group.Associative`). The rest
  is proved from them: Fermat's theorem, unique division, closure, negation, the square root of z or
  of -z, and the agreement on x coordinates.
- **Address anonymisers** (`Prefix`, `PrefixTree`, `A50`, `PrefixHash`). A tree of nodes, a free list
  and a cache, rewritten in place; `A50.AnonymizeAll` says that over every list of requests and all
  random words, outputs share exactly as many leading bits as inputs, and which output each new
  address gets from its random word. The hash-based variant is a bijection with the same property for
  every hash function, and each output bit is given by the hash of the bits before it.
- **Chunk framing** (`Framing`, `ChunkedIO`). Two connected end points with write buffers, queues,
  read buffers and partial chunks over pipes that take and deliver what they like;
  `ChunkedIO.Session` says that every run of calls accepts what is offered, short of a full queue, and
  at every moment has delivered the accepted chunks in order and whole, as far as their parts were
  taken; a flush and enough reads that are not refused deliver all of them (`ChunkedIO.AllDelivered`).
- **Bencode** (`Bencode`, `BencodeProofs`, `BencodeVerdicts`, `BencodeNumbers`, `BencParser`, `Tracker`).
  A resumable parser with a stack, counters and buffer positions; `Tracker.ParseResponse` says that, however the input is cut, success
  means exactly that it begins with a dictionary of the grammar, that the reported events are then the
  members of that dictionary, nested values as exactly their bytes, that more is needed exactly when
  the input begins a longer dictionary, and a violation is exactly all the rest.
- **Composite keys** (`KeyFormat`, `KeyLayout`, `CompHash`). A size calculator, an encoder through a
  moving position and a decoder; `CompHash.RoundTrip` gives the exact conditions under which a key
  exists and can be read back, and `KeyLayout` which byte stands at which offset.
- **Relay** (`Tunnel`, `Relay`). All tunnels of the client, their callbacks and the resource counters;
  `Relay.Run` keeps, over every sequence of events, the byte streams, the pause and close protocols
  and the counters. That a tunnel closed without error has sent on all that a finished side said is
  false when both sides finish: `Relay.FinishedByteLost` is such a run, `Relay.CloseExact` the exact
  condition.

`Octets` holds what the parser, framing, key and relay modules share.

Sources of nondeterminism (random words, hash functions, what a pipe accepts, which event comes next)
are arguments or arbitrary choices, so the statements hold for all of them.

## Model

| member | source | states |
|---|---|---|
| Fp.EuclidSmall | tag/ptwist168.cpp:127-130 | for p prime, a product of two residues is a multiple of p only if one of them is 0 |
| Fp.Fermat | tag/ptwist168.cpp:438-511 | a^(p-1) is 1 modulo p for every a not divisible by p, which is what makes in^(p-2) the inverse |
| Felem.Sum64 | tag/ptwist168.cpp:185-190 | limb addition adds the residues; the limb bounds add up and no word overflows |
| Felem.Diff64 | tag/ptwist168.cpp:194-210 | after the added multiple of p the subtraction cannot underflow, and the residues are subtracted |
| Felem.Diff128 | tag/ptwist168.cpp:214-243 | the same for five 128-bit limbs, with the bound the later reduction needs |
| Felem.Diff128By64 | tag/ptwist168.cpp:245-263 | the same for a 128-bit minuend and a 64-bit subtrahend |
| Felem.Scalar64 | tag/ptwist168.cpp:266-272 | multiplies the residue by a small scalar without overflow |
| Felem.Scalar128 | tag/ptwist168.cpp:275-282 | the same on 128-bit limbs |
| Felem.Square | tag/ptwist168.cpp:285-292 | the same for the square |
| Felem.MulResidue | tag/ptwist168.cpp:295-304 | the value of the product limbs is the product modulo p |
| Felem.DiffWords | tag/ptwist168.cpp:214-243 | the constants added before the wide subtraction make up a multiple of p |
| Felem.Mul | tag/ptwist168.cpp:295-304 | the five product limbs are the stated sums of products, have the value of the product, and stay below three times the product of the limb bounds |
| Felem.FoldAndCarry | tag/ptwist168.cpp:310-349 | the last folding of a reduction keeps the value modulo p and leaves limbs below 2^56, below 2^56 and at most 2^56 |
| Felem.Reduce | tag/ptwist168.cpp:310-349 | for every input below 2^126 the output has the same residue and is in reduced form; the limbs are those of two rounds of folding and carrying |
| Felem.FoldedReduced | tag/ptwist168.cpp:352-382 | on reduced limbs one fold of the value gives the least residue |
| Felem.CarryAndSubtract | tag/ptwist168.cpp:352-382 | the carry and conditional subtraction give the folded value exactly, in canonical limbs |
| Felem.Contract | tag/ptwist168.cpp:352-382 | the output value is the folded and at most once reduced input; on reduced limbs the unique residue below p |
| Felem.NegCases | tag/ptwist168.cpp:386-410 | the value computed for -v is the least residue exactly when v is outside p-513 to p-257, and 2p - v inside |
| Felem.Neg | tag/ptwist168.cpp:386-410 | for all limbs below 2^57 the result is congruent to the negation, with the exact value in both cases |
| Felem.ZeroForms | tag/ptwist168.cpp:412-435 | for values below 2^169 with carried lower limbs, the limbs of 0, p and 2p are exactly the representations of 0 |
| Felem.IsZero | tag/ptwist168.cpp:412-435 | for any limbs, 1 exactly for those three forms; so in that range 1 exactly when the residue is 0 |
| FelemPow.SquareTimes | tag/ptwist168.cpp:438-511 | a squaring loop of n rounds raises the exponent by 2^n |
| FelemPow.Inv | tag/ptwist168.cpp:438-511 | the addition chain computes exactly the power p-2 of its input |
| FelemPow.Sqrt | tag/ptwist168.cpp:515-574 | the addition chain computes exactly the power (p+1)/4 |
| Curve.DivSpec | tag/ptwist168.cpp:438-511 | multiplying by the power p-2 is division: the quotient times the divisor is the dividend |
| Curve.QuotientUnique | tag/ptwist168.cpp:438-511 | no other residue times the divisor is the dividend |
| Curve.DoubleRepresents | tag/ptwist168.cpp:619-698 | the doubling formulas on Jacobian coordinates give the tangent construction, infinity and order two included |
| Curve.SumRepresents | tag/ptwist168.cpp:700-711 | the addition formulas give the chord construction for points with different x |
| Curve.AddRepresents | tag/ptwist168.cpp:713-844 | with the equal, opposite and infinity cases the addition is the group law |
| Curve.InPlaceExact | tag/ptwist168.cpp:833-843 | the call that writes over its first operand computes the sum exactly when the second operand is finite or the first is infinite |
| Curve.InPlaceWrong | tag/ptwist168.cpp:833-843 | adding infinity in place to (0, 0) gives infinity, although separate outputs give the sum |
| Group.AddOnCurve | tag/ptwist168.cpp:610-617 | the sum of two points of y^2 = x^3 - 3x + b is on it, for every b |
| Group.NegateAdd | tag/ptwist168.cpp:1574-1578 | negation commutes with addition, so the sign of y is lost consistently |
| Group.TimesAdd | tag/ptwist168.cpp:876-921 | multiples add, from associativity alone |
| Group.TimesTimes | tag/ptwist168.cpp:876-921 | multiples of multiples multiply |
| Group.TimesNegate | tag/ptwist168.cpp:1574-1578 | multiples of the negated point are the negated multiples |
| Jacobian.AffineEquation | tag/ptwist168.cpp:610-617 | a finite Jacobian point satisfies Y^2 = X^3 - 3XZ^4 + bZ^6 exactly when its affine point is on the curve |
| Jacobian.DoubleKeepsEquation | tag/ptwist168.cpp:626-698 | doubling keeps the Jacobian equation for every b, so for the curve and its twist, also at infinity |
| Jacobian.AddKeepsEquation | tag/ptwist168.cpp:713-844 | addition keeps it in every case, also in place with an infinite second operand |
| Point.PointDouble | tag/ptwist168.cpp:626-698 | from limbs below 2^57, in place or apart, the coordinates of the doubled point in reduced form, and the same nine limbs in both cases; nothing else changes and no word overflows |
| Point.CopyConditional | tag/ptwist168.cpp:579-590 | the masked exchange copies for 1 and keeps for 0 |
| Point.PointAdd | tag/ptwist168.cpp:713-844 | for all limbs below 2^57, without overflow: the limbs written, the coordinates for the outcomes of the zero tests, the sum where the z coordinates are in range of those tests, and reduced form unless an unreduced operand is copied |
| Point.AddReduced | tag/ptwist168.cpp:713-844 | reduced operands give the sum in reduced form, in place or apart |
| Point.InPlaceLimbs | tag/ptwist168.cpp:833-843 | writing over the first operand gives the same limbs as separate outputs exactly when the second operand is finite or both are infinite with the same limbs |
| PointMul.FillPair | tag/ptwist168.cpp:884-890 | two more table entries: entry k holds the multiple k of the base point |
| PointMul.Nibble | tag/ptwist168.cpp:900-917 | four doublings and an addition in place turn the multiple n into 16n + d |
| PointMul.TopBytesVal | tag/ptwist168.cpp:900-917 | the bytes read from the top make up the little-endian scalar |
| PointMul.PointMul | tag/ptwist168.cpp:876-921 | for every 21-byte scalar the result is that multiple of the base point, if the multiples 1 to 15 are finite |
| Bytes.BinToFelem | tag/ptwist168.cpp:146-151 | 21 bytes become limbs with their little-endian value |
| Bytes.FelemToBin | tag/ptwist168.cpp:153-162 | the 21 bytes of the value, for limbs in range the exact inverse |
| Bytes.BytesOfVal | tag/ptwist168.cpp:146-162 | writing the value of 21 bytes gives the bytes back |
| Bytes.ValOfBytes | tag/ptwist168.cpp:146-162 | reading the bytes of a value below 256^n gives the value back |
| Bytes.ByteAt | tag/ptwist168.cpp:146-162 | byte i of a written value is its digit at 256^i |
| Twist.RootSquare | tag/ptwist168.cpp:1601-1614 | for r = z^((p+1)/4), r^2 is z or -z |
| Twist.SquareHasRoot | tag/ptwist168.cpp:515-574 | when z is a square, r^2 is z |
| Twist.NegatedSquareIsNoSquare | tag/ptwist168.cpp:1616-1626 | the negation of a nonzero square is no square, so curve and twist do not share an x |
| Twist.LiftOnCurve | tag/ptwist168.cpp:1592-1626 | for every x the lifted point is on y^2 = x^3 - 3x + b, or (-x, r) is on y^2 = x^3 - 3x - b |
| Twist.LawsOfLift | tag/ptwist168.cpp:1592-1626 | of a lifted point only primality, associativity and the finite multiples 1 to 15 have to be assumed |
| Twist.LiftOfMain | tag/ptwist168.cpp:1592-1626 | lifting the x of a point of the curve gives the point or its negation |
| Twist.LiftOfTwist | tag/ptwist168.cpp:1592-1657 | lifting the reported x of a point of the twist gives the point or its negation |
| Twist.LiftOfOrderTwo | tag/ptwist168.cpp:1592-1657 | lifting the reported x of a point of order two of the twist gives a point of order two of the main curve with that x |
| Twist.Generators | tag/ptwist168.cpp:127-143 | x = 2 is on the main curve, with the y of the curve parameters or its negation, and x = 0 is on the twist |
| Twist.TimesOfOutput | tag/ptwist168.cpp:1579-1657 | multiplying a reported multiple is finite exactly when the product is, and reports the x of the product, points of order two included |
| Twist.XAgreement | tag/ptwist168.cpp:1579-1657 | both orders of multiplication report the same x, and are finite together |
| Ptwist.AffineX | tag/ptwist168.cpp:863-873 | x divided by z^2, canonical; nothing is written at infinity |
| Ptwist.FindRoot | tag/ptwist168.cpp:1592-1614 | the computed y is the power (p+1)/4 of x^3 - 3x + b, and the test says whether it is a root |
| Ptwist.LiftInPlace | tag/ptwist168.cpp:1592-1631 | the point handed to the multiplication represents the lift of x |
| Ptwist.PtwistPointmul | tag/ptwist168.cpp:1579-1657 | the output is the 21 bytes of the reported multiple, whenever that multiple is finite |
| Tag.TagKeys.constructor | tag/tag.c:205-237 | the generators have x = 2 and x = 0, the public keys are the two halves |
| Tag.TagKeys.GenTag | tag/tag.c:15-127 | the 28-byte tag is the 21 bytes of the multiple of the generator and the first seven hash bytes, the key the last sixteen hash bytes, for any hash |
| Tag.CheckTag | tag/tag.c:130-203 | 0 exactly when the last seven of the 28 bytes begin the hash of the secret and the context, and only then the key is set |
| Tag.SharedSecret | tag/genkeys.c:26-27 | with public keys made from the same private key both sides hash the same bytes, whenever the multiples can be reported and one of the two secrets is finite |
| Tag.Exchange | tag/tag.c:15-203 | the station accepts the tag its client made and both have the key hashed from the shared multiple and the context, for every private key, secret, curve choice and context whose multiples are finite and, on the twist, outside the window of `Felem.NegCases` |
| Int128.AddAndCarry | tag/int128.h:239-254 | 2^64 * carry + result is the sum |
| Int128.MultiplyAndCarry | tag/int128.h:256-285 | 2^64 * carry + result is the product, exactly |
| Int128.Uint128.AddAssign | tag/int128.h:304-310 | addition modulo 2^128 whenever the operand is not the receiver; otherwise twice the value less the carry between the words, which is right exactly when the low word is below 2^63 |
| Int128.AddToItself | tag/int128.h:304-310 | adding a value to itself in place doubles it exactly when its low word is below 2^63; 2^63 becomes 0 |
| Int128.Uint128.SubAssign | tag/int128.h:312-318 | subtraction modulo 2^128, also of the receiver itself |
| Int128.Uint128.MulAssign | tag/int128.h:287-302 | multiplication modulo 2^128, also by the receiver itself |
| Int128.Uint128.Less | tag/int128.h:140-148 | compares the 128-bit values |
| Int128.Uint128.LessOrEqual | tag/int128.h:140-148 | the same for at most |
| Int128.ShiftLeft | tag/int128.h:182-198 | multiplication by 2^amount modulo 2^128, for every amount |
| Int128.ShiftRight | tag/int128.h:200-216 | division by 2^amount, for every amount |
| Prefix.BiFfs | old-telex-station-backup/bro-1.5.1/src/Anon.cc:23-54 | the position r of the highest set bit of v: 2^(32-r) is at most v and v is below 2^(33-r); 0 only for 0 |
| Prefix.XorHigh | old-telex-station-backup/bro-1.5.1/src/Anon.cc:278-279 | an exclusive or is below 2^m exactly when the operands agree above bit m |
| Prefix.Swivel | old-telex-station-backup/bro-1.5.1/src/Anon.cc:278-279 | the search in the exclusive or finds the first bit in which two addresses differ |
| Prefix.FirstDiffUnique | old-telex-station-backup/bro-1.5.1/src/Anon.cc:278-279 | agreeing before bit s and differing at it determines s |
| Prefix.SameIs | old-telex-station-backup/bro-1.5.1/src/Anon.cc:105-134 | sharing the first k bits means equal quotients by 2^(32-k) |
| Prefix.BitOf | old-telex-station-backup/bro-1.5.1/src/Anon.cc:105-134 | each bit of an and, an or and an exclusive or is that of the operands' bits |
| PrefixTree.MakeOutput | old-telex-station-backup/bro-1.5.1/src/Anon.cc:242-256 | for every random word the new output agrees with the old one before the swivel bit and differs at it; what follows is the random word modulo 2^31 divided by 2^swivel |
| PrefixTree.BitAfterFlipIsZero | old-telex-station-backup/bro-1.5.1/src/Anon.cc:253-254 | the bit after the swivel is always 0, although the comment calls the remaining bits random |
| PrefixTree.TreePreserves | old-telex-station-backup/bro-1.5.1/src/Anon.cc:258-346 | in a tree of the right shape any two outputs share exactly as many leading bits as their inputs |
| PrefixTree.ForkBit | old-telex-station-backup/bro-1.5.1/src/Anon.cc:327-331 | the swivel found from the inputs of the two children is the bit at which the node divides its addresses |
| PrefixTree.PeerOk | old-telex-station-backup/bro-1.5.1/src/Anon.cc:258-296 | splitting the node at which the search stops keeps the shape and adds exactly the new pair |
| PrefixTree.InsertOk | old-telex-station-backup/bro-1.5.1/src/Anon.cc:298-346 | inserting anywhere in the tree keeps the shape and all earlier pairs |
| PrefixTree.StopNearest | old-telex-station-backup/bro-1.5.1/src/Anon.cc:315-341 | no address of the tree shares more leading bits with a new one than the address where the search stops |
| PrefixTree.NewFromStop | old-telex-station-backup/bro-1.5.1/src/Anon.cc:258-346 | so the new answer follows the answer of any nearest address and leaves it where the addresses differ |
| PrefixTree.InsertHolds | old-telex-station-backup/bro-1.5.1/src/Anon.cc:258-296 | writing just the split node and the two new nodes turns memory that holds the tree into memory that holds the tree with the new address |
| A50.Anonymizer.constructor | old-telex-station-backup/bro-1.5.1/src/Anon.cc:144-154 | an empty tree and the two special addresses |
| A50.Anonymizer.NewNodeBlock | old-telex-station-backup/bro-1.5.1/src/Anon.cc:202-220 | one node of a block of 1024 is handed out and the others are a proper free list |
| A50.Anonymizer.NewNode | old-telex-station-backup/bro-1.5.1/src/Anon.cc:222-234 | a node that is in use nowhere, and a free list without it |
| A50.WritePeers | old-telex-station-backup/bro-1.5.1/src/Anon.cc:278-295 | the three nodes hold a fork over the new leaf and the moved contents, ones to the right |
| A50.Anonymizer.MakePeer | old-telex-station-backup/bro-1.5.1/src/Anon.cc:258-296 | the new node answers for the address with the made output, all earlier answers stay |
| A50.Anonymizer.Descend | old-telex-station-backup/bro-1.5.1/src/Anon.cc:315-341 | the loop ends, at the node of the address or at the node that has to make room for it |
| A50.Anonymizer.FindNode | old-telex-station-backup/bro-1.5.1/src/Anon.cc:298-346 | the node of the address; exactly its pair is added, special addresses stand for themselves; a new address gets the random word if it is the first, else the output made from a nearest address |
| A50.Anonymizer.Anonymize | old-telex-station-backup/bro-1.5.1/src/Anon.cc:58-70 | cached answers are returned and change nothing, computed ones are answers of the tree for new addresses, and earlier answers never change |
| A50.AnonymizeAll | old-telex-station-backup/bro-1.5.1/src/Anon.cc:188-346 | over every list of requests and all random words, any two tree addresses and their outputs share the same number of leading bits; a repeated address gets its earlier answer, 0 and 2^32 - 1 stand for themselves, and the answer to each new address is determined by the earlier answers and its random word |
| A50.SampleAnswers | old-telex-station-backup/bro-1.5.1/src/Anon.cc:242-256 | four literal requests with their literal answers |
| PrefixHash.DecEnc | old-telex-station-backup/bro-1.5.1/src/Anon.cc:110-134 | on prefixes of any length the inverse recovers the input, whatever the hash |
| PrefixHash.EncDec | old-telex-station-backup/bro-1.5.1/src/Anon.cc:110-134 | and the image of the inverse is the output |
| PrefixHash.ImageBijective | old-telex-station-backup/bro-1.5.1/src/Anon.cc:110-134 | the anonymiser permutes the 32-bit addresses |
| PrefixHash.ImagePreservesPrefix | old-telex-station-backup/bro-1.5.1/src/Anon.cc:105-134 | images share exactly as many leading bits as the addresses |
| PrefixHash.ImageBits | old-telex-station-backup/bro-1.5.1/src/Anon.cc:110-134 | bit i of the image is bit i of the address changed by the last bit of the hash of i + 1 and of the first i bits followed by a one and zeros |
| PrefixHash.Anonymizer.Compute | old-telex-station-backup/bro-1.5.1/src/Anon.cc:110-134 | the 32-round loop of masks and exclusive ors computes that image, bit by bit |
| PrefixHash.Anonymizer.Anonymize | old-telex-station-backup/bro-1.5.1/src/Anon.cc:58-70 | the caching wrapper agrees with the uncached function, bit by bit |
| Framing.WordRoundTrip | old-telex-station-backup/bro-1.5.1/src/ChunkedIO.cc:232-237 | the four header bytes give the length word back |
| Framing.NetworkOrder | old-telex-station-backup/bro-1.5.1/src/ChunkedIO.cc:232-237 | byte i of a header is the digit of the length word at 256^(3-i) |
| Framing.ReadsNetworkOrder | old-telex-station-backup/bro-1.5.1/src/ChunkedIO.cc:340-350 | and is read with that weight |
| Framing.FrameBytes | old-telex-station-backup/bro-1.5.1/src/ChunkedIO.cc:225-249 | the bytes of a frame: 0x80 or 0 for the flag, the three lower bytes of the length from the top, the data |
| Framing.PartAt | old-telex-station-backup/bro-1.5.1/src/ChunkedIO.cc:166-187 | part i of a chunk is its 1048572 bytes from position 1048572 * i, or what is left, and all but the last are flagged |
| Framing.FirstPartOfStream | old-telex-station-backup/bro-1.5.1/src/ChunkedIO.cc:333-374 | a receiver holding the first bytes of a stream of frames finds the first frame once it is complete, and nothing else |
| Framing.FrameIsFirst | old-telex-station-backup/bro-1.5.1/src/ChunkedIO.cc:333-374 | streams of frames can be read in one way only |
| Framing.FullBufferHasFrame | old-telex-station-backup/bro-1.5.1/src/ChunkedIO.h:182-187 | a full read buffer always holds a complete frame |
| Framing.JoinSplitAll | old-telex-station-backup/bro-1.5.1/src/ChunkedIO.cc:166-187 | joining the parts of all chunks gives the chunks, with nothing left over |
| Framing.JoinedIsPrefix | old-telex-station-backup/bro-1.5.1/src/ChunkedIO.cc:399-477 | whatever initial run of parts has been joined, the finished chunks are the first ones |
| Framing.JoinedAll | old-telex-station-backup/bro-1.5.1/src/ChunkedIO.cc:399-477 | all chunks are finished exactly when all parts have been joined |
| Framing.FlowRead | old-telex-station-backup/bro-1.5.1/src/ChunkedIO.cc:356-477 | taking one frame off the bytes on the way keeps accepted, joined and outstanding parts in line |
| Framing.NothingLost | old-telex-station-backup/bro-1.5.1/src/ChunkedIO.cc:479-582 | once a read finds no frame and nothing is on the way, all chunks have been delivered and no partial chunk is left |
| ChunkedIO.ChunkedIOFd.FlushWriteBuffer | old-telex-station-backup/bro-1.5.1/src/ChunkedIO.cc:251-292 | short writes neither lose nor repeat a byte; bytes stay buffered only if the pipe refused |
| ChunkedIO.ChunkedIOFd.PutIntoWriteBuffer | old-telex-station-backup/bro-1.5.1/src/ChunkedIO.cc:225-249 | appends the frame, given byte by byte, exactly when the buffer then holds no more than 1048576 bytes |
| ChunkedIO.ChunkedIOFd.Flush | old-telex-station-backup/bro-1.5.1/src/ChunkedIO.cc:301-331 | keeps the order of buffer and queue, ends, and leaves something behind only if the pipe refused, which an eager pipe never does |
| ChunkedIO.ChunkedIOFd.WriteChunk | old-telex-station-backup/bro-1.5.1/src/ChunkedIO.cc:190-222 | one more frame at the end of what is on the way, never before a queued one |
| ChunkedIO.ChunkedIOFd.WriteParts | old-telex-station-backup/bro-1.5.1/src/ChunkedIO.cc:166-187 | the loop sends the parts of an oversized chunk, all but the last flagged |
| ChunkedIO.ChunkedIOFd.Write | old-telex-station-backup/bro-1.5.1/src/ChunkedIO.cc:138-188 | accepted chunks go on the way as their parts, a chunk of at most 1048572 bytes behind a header given byte by byte; a queue of more than 500000 parts and an empty chunk change nothing |
| ChunkedIO.ChunkedIOFd.ChunkAvailable | old-telex-station-backup/bro-1.5.1/src/ChunkedIO.cc:333-354 | the length word exactly when a complete frame is there |
| ChunkedIO.ChunkedIOFd.ExtractChunk | old-telex-station-backup/bro-1.5.1/src/ChunkedIO.cc:356-374 | takes exactly one frame off the buffer |
| ChunkedIO.ChunkedIOFd.FillBuffer | old-telex-station-backup/bro-1.5.1/src/ChunkedIO.cc:526-576 | short reads keep the order of buffer and pipe, within the buffer; which of the three reasons ended it, and the count of failed reads |
| ChunkedIO.ChunkedIOFd.ReadChunk | old-telex-station-backup/bro-1.5.1/src/ChunkedIO.cc:479-582 | one frame or none; none only if no complete frame is there; failure and the end flag exactly when the stream ended without a frame |
| ChunkedIO.ChunkedIOFd.Read | old-telex-station-backup/bro-1.5.1/src/ChunkedIO.cc:399-477 | returns a chunk when its last part is taken, joined with the earlier parts; fails exactly at the end of the stream |
| ChunkedIO.Receive | old-telex-station-backup/bro-1.5.1/src/ChunkedIO.cc:399-582 | a read takes nothing only if the pipe is empty or refuses; a full buffer never blocks it; what it returns is the next accepted chunk once its last part is taken |
| ChunkedIO.NoneRefused | old-telex-station-backup/bro-1.5.1/src/ChunkedIO.cc:147-164 | a side that offers no empty chunk and no more parts than the queue holds has everything accepted |
| ChunkedIO.Session | old-telex-station-backup/bro-1.5.1/src/ChunkedIO.cc:138-582 | for every run of writes, flushes and reads on two connected end points the answers fit the calls; at every moment each side has been returned exactly the chunks made up by as many of the accepted parts as its reads took, and all of them after an unrefused flush and an unrefused read that took nothing; a side is idle exactly when everything was returned; what was accepted is what was offered unless a chunk was empty or the queue full; eager pipes refuse nothing |
| ChunkedIO.ConveyedInOrder | old-telex-station-backup/bro-1.5.1/src/ChunkedIO.cc:399-582 | returned chunks are a prefix of the accepted chunks, and all of them exactly when all parts were taken |
| ChunkedIO.AllDelivered | old-telex-station-backup/bro-1.5.1/src/ChunkedIO.cc:301-582 | in every run that ends with a flush and more reads on the other side than there are accepted parts, none refused, everything accepted has been returned |
| Bencode.StepText | old-telex-station-backup/bro-1.5.1/src/BitTorrentTracker.cc:547-783 | every byte read becomes part of the text of the open values; the text of a finished dictionary is what was read |
| BencodeProofs.LeadsValue | old-telex-station-backup/bro-1.5.1/src/BitTorrentTracker.cc:547-783 | reading the text of any value, nested to any depth, adds that value to the innermost open one |
| BencodeProofs.AcceptsDictionary | old-telex-station-backup/bro-1.5.1/src/BitTorrentTracker.cc:547-783 | every dictionary of the grammar is accepted right after its last byte |
| BencodeProofs.AcceptsExactly | old-telex-station-backup/bro-1.5.1/src/BitTorrentTracker.cc:529-787 | the accepted byte strings are exactly the dictionaries: string keys, as many values as keys |
| BencodeProofs.Unambiguous | old-telex-station-backup/bro-1.5.1/src/BitTorrentTracker.cc:529-787 | a byte string is the text of at most one dictionary |
| BencodeProofs.ScanExact | old-telex-station-backup/bro-1.5.1/src/BitTorrentTracker.cc:529-787 | success exactly when the bytes begin with a dictionary, and then the events are its members |
| BencodeProofs.ScanSplit | old-telex-station-backup/bro-1.5.1/src/BitTorrentTracker.cc:515-527 | input in two pieces gets the verdict it gets in one |
| BencodeVerdicts.Continues | old-telex-station-backup/bro-1.5.1/src/BitTorrentTracker.cc:529-787 | whatever has been read without a violation can be continued to a dictionary |
| BencodeVerdicts.NeedMoreExact | old-telex-station-backup/bro-1.5.1/src/BitTorrentTracker.cc:529-787 | more is needed exactly when the bytes are a proper prefix of some dictionary, and the events so far are among the first of every such dictionary |
| BencodeVerdicts.ViolationExact | old-telex-station-backup/bro-1.5.1/src/BitTorrentTracker.cc:529-787 | a violation is reported exactly when no dictionary begins with the bytes or they with it; the bytes before some byte begin dictionaries, those with it do not, and the events are among the first of each of these dictionaries |
| BencodeVerdicts.FirstBytes | old-telex-station-backup/bro-1.5.1/src/BitTorrentTracker.cc:529-680 | input that does not begin with d, or goes on with neither a digit nor e, is refused; de is the empty dictionary |
| BencodeNumbers.NumAppend | old-telex-station-backup/bro-1.5.1/src/BitTorrentTracker.cc:681-745 | numerals are read in base ten: the number of two runs of digits is that of the first times a power of ten plus that of the second |
| BencodeNumbers.DigitAt | old-telex-station-backup/bro-1.5.1/src/BitTorrentTracker.cc:681-745 | each digit of a numeral is the digit of its number at that place |
| BencodeNumbers.EventAt | old-telex-station-backup/bro-1.5.1/src/BitTorrentTracker.cc:491-513 | event i reports member 2i + 1 under the key before it: integers with their sign, strings as their data, other values as their bytes |
| BencodeNumbers.ResponseIs | old-telex-station-backup/bro-1.5.1/src/BitTorrentTracker.cc:529-787 | a dictionary written with decimal lengths and numbers, holding an integer, a string and a list of strings, is one of the grammar, with three events |
| BencParser.ScanSeek | old-telex-station-backup/bro-1.5.1/src/BitTorrentTracker.cc:747-759 | taking many bytes of a string at once is taking them one by one |
| BencParser.RawBytes | old-telex-station-backup/bro-1.5.1/src/BitTorrentTracker.cc:608-627 | the raw slice kept for a nested member is exactly its text |
| BencParser.CompleteBase | old-telex-station-backup/bro-1.5.1/src/BitTorrentTracker.cc:541-546 | a complete value is counted once; as a value of the outer dictionary it is reported under the remembered key |
| Tracker.Parser.constructor | old-telex-station-backup/bro-1.5.1/src/BitTorrentTracker.cc:228-246 | the initial variables stand for the initial configuration |
| Tracker.Parser.OpenCompound | old-telex-station-backup/bro-1.5.1/src/BitTorrentTracker.cc:555-593 | d and l open a value, or are refused at the start or in place of a key |
| Tracker.Parser.CloseCompound | old-telex-station-backup/bro-1.5.1/src/BitTorrentTracker.cc:608-640 | e closes a value, reports a member, finishes the dictionary, or is refused after a key |
| Tracker.Parser.StartToken | old-telex-station-backup/bro-1.5.1/src/BitTorrentTracker.cc:595-652 | i and digits start a token, or are refused at the start, i also in place of a key |
| Tracker.Parser.ReadInt | old-telex-station-backup/bro-1.5.1/src/BitTorrentTracker.cc:660-711 | sign and digits of an integer |
| Tracker.Parser.EndInt | old-telex-station-backup/bro-1.5.1/src/BitTorrentTracker.cc:681-711 | the value reported is the number of the digits, in base ten (`BencodeNumbers.NumAppend`), with its sign |
| Tracker.Parser.ReadLength | old-telex-station-backup/bro-1.5.1/src/BitTorrentTracker.cc:713-745 | the length of a string, in base ten, and the key remembered in the outer dictionary |
| Tracker.Parser.ReadBody | old-telex-station-backup/bro-1.5.1/src/BitTorrentTracker.cc:747-782 | as many bytes as have arrived; an empty string takes none; the verdict is not changed |
| Tracker.Parser.ResponseParseBenc | old-telex-station-backup/bro-1.5.1/src/BitTorrentTracker.cc:529-787 | the loop ends, and whatever arrives later, the answers together are the verdict on all bytes |
| Tracker.ParseResponse | old-telex-station-backup/bro-1.5.1/src/BitTorrentTracker.cc:515-787 | for every way of cutting the input, the verdict on the whole: success exactly for a dictionary, with its members as events; more needed exactly for a proper prefix of one; a violation exactly otherwise; and no event that contradicts what the input could have become |
| Tracker.ParseMembers | old-telex-station-backup/bro-1.5.1/src/BitTorrentTracker.cc:515-787 | for all keys, integers, strings and lists of strings, and however the bytes are cut, that dictionary is accepted with exactly these events |
| Tracker.ParseSample | old-telex-station-backup/bro-1.5.1/src/BitTorrentTracker.cc:515-787 | a literal response with a negative two-digit number and a two-digit length, cut inside the number, and its literal events |
| KeyFormat.DecAllEnc | old-telex-station-backup/bro-1.5.1/src/CompHash.cc:488-707 | reading undoes writing for values of any types nested to any depth, at any position |
| KeyFormat.KeysInjective | old-telex-station-backup/bro-1.5.1/src/CompHash.cc:208-257 | equal keys mean equal values |
| KeyLayout.EncAllLaidOut | old-telex-station-backup/bro-1.5.1/src/CompHash.cc:67-205 | every value stands at the next multiple of 8 or 4 after zeros: integers, unsigned numbers, doubles and addresses with the least significant byte first, a net before its width, the length of a string before its bytes, fields in the order of their declaration |
| KeyLayout.LayoutExact | old-telex-station-backup/bro-1.5.1/src/CompHash.cc:67-257 | a byte string is the key of the values exactly if it has that layout and no more bytes |
| CompHash.SizeAlign | old-telex-station-backup/bro-1.5.1/src/CompHash.cc:469-486 | the end of an item placed at the next multiple of its size |
| CompHash.SizeExactAll | old-telex-station-backup/bro-1.5.1/src/CompHash.cc:317-428 | the calculator gives the number of bytes the encoder writes, and 0 exactly when the first item is an empty record |
| CompHash.ReachBoundAll | old-telex-station-backup/bro-1.5.1/src/CompHash.cc:317-428 | the encoder never gets past the calculated size, also when it stops at a value that does not fit |
| CompHash.AlignAndPad | old-telex-station-backup/bro-1.5.1/src/CompHash.cc:454-467 | zeros up to the next multiple, whatever the buffer held |
| CompHash.Align | old-telex-station-backup/bro-1.5.1/src/CompHash.cc:437-452 | the position after the same padding |
| CompHash.SingleValHash | old-telex-station-backup/bro-1.5.1/src/CompHash.cc:67-205 | succeeds exactly for values that match, and appends exactly their bytes, laid out as `KeyLayout` says, within the buffer |
| CompHash.HashAll | old-telex-station-backup/bro-1.5.1/src/CompHash.cc:247-254 | the same for a list of values |
| CompHash.CompositeHash.ComputeHash | old-telex-station-backup/bro-1.5.1/src/CompHash.cc:208-257 | a key exactly when the values match and the first item is not an empty record; it depends on the values only and has the layout of `KeyLayout` |
| CompHash.RecoverOneVal | old-telex-station-backup/bro-1.5.1/src/CompHash.cc:509-707 | gives the value back; the over-run error is raised exactly for values without bytes at the end of the key |
| CompHash.CompositeHash.RecoverVals | old-telex-station-backup/bro-1.5.1/src/CompHash.cc:488-507 | gives the values of a made key back exactly when the last item is not an empty record |
| CompHash.RoundTrip | old-telex-station-backup/bro-1.5.1/src/CompHash.cc:208-257 | when a key exists, when it can be read back, and that no other values have it |
| CompHash.SampleKey | old-telex-station-backup/bro-1.5.1/src/CompHash.cc:67-257 | literal values of four types, padding between them, and the 24 bytes of their key |
| CompHash.TrailingEmptyRecord | old-telex-station-backup/bro-1.5.1/src/CompHash.cc:513-515 | an integer followed by an empty record has a key, and reading it back fails |
| CompHash.LeadingEmptyRecord | old-telex-station-backup/bro-1.5.1/src/CompHash.cc:417-424 | an empty record followed by an integer matches its types and has no key |
| Tunnel.Move | telex-client/proxy.c:219-258 | moving the input to the partner's output keeps the streams in order and counted; at the limit the reader is paused with the partner's drain callback armed above its watermark |
| Tunnel.DataKeeps | telex-client/proxy.c:219-258 | data on either side keeps all invariants of the tunnel: nothing stays in an input unless the side is closing, and a side that reads has a partner below the output limit; the side reads on exactly if it is closing or its partner's output stays below 524288 bytes |
| Tunnel.DataEffect | telex-client/proxy.c:219-258 | the new state field by field: the bytes go to the partner and are counted; at 524288 bytes reading stops and the partner gets the drain callback and the watermark 262144; otherwise no callback, watermark or reading changes |
| Tunnel.WrittenKeeps | telex-client/proxy.c:260-281 | sending output, with the drain or close callback it triggers, keeps them, or closes with everything of one finished side sent; a finished side loses bytes exactly when the other connection had the close callback as well |
| Tunnel.WrittenEffect | telex-client/proxy.c:260-281 | the same for sending: at the watermark a drained connection loses callback and watermark and its partner reads again; the tunnel closes exactly when a closing connection has nothing left |
| Tunnel.EofKeeps | telex-client/proxy.c:314-331 | the end of one side keeps them with the other side draining, or closes with everything of this side sent; the other side, if it had finished, loses bytes exactly when this connection had the close callback |
| Tunnel.EofEffect | telex-client/proxy.c:314-331 | the same for the end of a stream: a partner with output stops reading, loses its read callback and gets the close callback, else the tunnel closes |
| Tunnel.ConnectedKeeps | telex-client/proxy.c:307-312 | switching reading on keeps them |
| Tunnel.ConnectedEffect | telex-client/proxy.c:307-312 | both sides read, and nothing else changes |
| Relay.TotalUpdate | telex-client/proxy.c:41-51 | changing one tunnel changes the number of live objects by its own |
| Relay.Proxy.StateCleanup | telex-client/proxy.c:69-110 | every object of the tunnel is freed and counted once, no counter goes below zero |
| Relay.Proxy.AcceptCb | telex-client/proxy.c:54-213 | a new tunnel, or a cleaned-up failure, with all counters right |
| Relay.Proxy.ResolvedCb | telex-client/proxy.c:113-157 | the tunnel comes up, or is cleaned up, with all counters right |
| Relay.Proxy.Handle | telex-client/proxy.c:219-339 | every event has the effect on its tunnel that `Relay.ReadingExact` and `Relay.BytesExact` describe and none on the others, and keeps the order of all tunnels and the counters |
| Relay.EventKeeps | telex-client/proxy.c:219-339 | every event keeps a tunnel in order, and one that closes it without error loses bytes of a finished side exactly if it cuts short a wait for output |
| Relay.Run | telex-client/proxy.c:41-339 | after every sequence of events: counters equal live objects, streams in order, output bounded while its source reads, a paused side will be woken unless the tunnel is closing, a tunnel closed without error has sent on all that one finished side said, and all that its finished sides said exactly unless both had finished |
| Relay.CloseExact | telex-client/proxy.c:275-331 | after every run: an event that closes a tunnel without error loses bytes of a finished side exactly when the connection it does not wait for has the close callback, which is exactly when both sides have finished |
| Relay.FinishedByteLost | telex-client/proxy.c:260-331 | a run in which the drain callback switches reading on again on a connection waiting to close, whose end of stream then closes the tunnel with the last byte of the finished client unsent |
| Relay.ReadingExact | telex-client/proxy.c:219-331 | after every run and event: a side reads exactly if connecting switches it on, or it read and neither its data brought the partner's output to 524288 bytes nor a stream ended, or its paused partner's output fell to 262144 |
| Relay.PausedExact | telex-client/proxy.c:219-271 | after every run a connected side that has not finished and is not closing reads, or its partner has the drain callback and more than 262144 bytes to send |
| Relay.BytesExact | telex-client/proxy.c:219-331 | after every run an event adds exactly its bytes to what arrived on a reading side, or the sent part of the output to what was sent |
| Relay.FirstPause | telex-client/proxy.c:247-256 | a new tunnel that gets b passes it on and reads on exactly if b is shorter than 524288 bytes |

## Left out

Hypotheses, restrictions and differences between code and comments:

- Fp.PrimeP: that p is prime is a hypothesis of the contracts that need it; it is not proved.
- Group.Associative: associativity of point addition is a hypothesis; closure, identity, negation and all statements about multiples are proved.
- Bytes.BinToFelem: the 8-byte loads with a mask are modelled as 7-byte little-endian reads.
- Ptwist.PtwistPointmul: for an infinite multiple the coordinate is an unset variable in the code, so nothing is promised of the output bytes then.
- The comment at tag/ptwist168.cpp:622 has 8 * Y^2 where the code subtracts 8 * Y^4; the model follows the code. The table value of the curve parameter a at tag/ptwist168.cpp:131-133 is not p - 3 and is used nowhere; the code uses -3.
- `felem_neg` calls `felem_contract` outside the range stated for it (tag/ptwist168.cpp:360); `Felem.Contract` is stated for all limbs below 2^57.
- The comment at old-telex-station-backup/bro-1.5.1/src/Anon.cc:253 calls the bits after the swivel random; the first of them is always 0 (`PrefixTree.BitAfterFlipIsZero`).
- Prefix.BiFfs: the masks of the search are written as quotients and remainders by powers of two.
- A50.Anonymizer.FindNode: the descent and the split are two methods, called in the order of the source's loop; out-of-memory paths and `free_node` are not modelled.
- `PreservePrefix` and `PreserveNet` of the anonymisers, which overwrite an output after a parent has copied it; the sequential and random variants; the byte order of addresses, which is converted on the way in and back on the way out.
- ChunkedIO.Session: I/O errors, interrupted calls, pure mode, process checks, `select` and `Clear` are not modelled; the linked queue is a sequence; the test of the flush timer is an arbitrary choice.
- ChunkedIO.ChunkedIOFd.Write: the internal error for an empty chunk is an outcome that changes nothing.
- Tracker.ParseResponse: string lengths from 2^32 and integers beyond 64 bits, where `sscanf` is undefined, are read as the numbers they stand for; the fixed buffer size, HTTP headers, peer lists and the restart for a kept-alive connection are not modelled; the parser's variables are one record.
- CompHash.CompositeHash.ComputeHash: 64-bit integers, 4-byte addresses and the checked entry (type_check 1) are modelled; a double is its 64 bits; function values, single non-record types and the hash of the key bytes are not. Record values are of their declared record type.
- Relay.Run: the buffers of the TCP connection under the SSL filter, DNS, logging and the SSL handshake are not modelled; reading ends with the end of a stream and a tunnel reports being connected once, as the event library does; the branch that discards data without a partner cannot be reached, because callbacks are set only when both sides exist.
- Int128.ShiftLeft: signed shift amounts below zero are not modelled; increments and bitwise operators of the class would only add easy members.

Not modelled at all: the client puzzle of tag.c, the dead NIST P-224 code and the self-test of
ptwist168.cpp, SHA-256, HMAC and OpenSSL, the kernel and socket code, SSL and compressed chunk I/O, the
TCP forging and checksum code, the line and Base64 analysers, option parsing and plotting.
