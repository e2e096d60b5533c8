# A verified model of libaacs

libaacs opens discs protected by AACS: it finds a media key in the Media Key
Block with device keys, authenticates itself to the drive to read the volume ID,
derives the volume unique key and the unit keys, and decrypts the stream.  This
project models the parts of it that decide something, in the form they have in
C, and proves what they are for.

| module | what it models |
|---|---|
| Bytes, Words, Field, Group | bytes and big-endian numbers, 32-bit words as bits, residues modulo a prime, multiples in a group |
| Mkb, MkbReader | records of the Media Key Block, and the reader of its file |
| SubsetDifference, MediaKey, Issue | device keys and the label tree, the media key, and the block that an authority issues for it |
| AffineCurve, Jacobian, EllipticCurve, ScalarMul | the group of the curve, its Jacobian formulas, the code of `ec.c` in place over shared scratch integers, and the signed-digit multiplication |
| Fault, CurveCrypto, SmallCurve | exactly when that multiplication is right, the multiplication as the handshake uses it, and a curve on which all hypotheses hold |
| UnitCipher, Session | the two cipher layers of a unit, and the session with its selected CPS unit |
| UnitKey | the unit key file |
| Cmac, Auth | the message authentication code, and AACS-Auth between a host and any drive |
| HexText, KeyCache, Waterfall | keys as text, the key cache, and the way from all sources to unit keys |
| Disc, Playback, Instance | opening a disc and decrypting a unit; all of it together, from the block as it was issued and an honest drive to the plain unit; and an instance of it |
| RevocationList | revocation lists over many discs |

Cryptography is a parameter: a block cipher is a pair of functions with the law
that they undo each other, signatures are a sign and a verify function with the
law that own signatures verify, scalar multiplication has the law that it
commutes (`CurveCrypto.LawsOfMultiplication` derives that law from the group of
the curve, and `CurveCrypto.ComputesMultiplication` says when the code computes it).
Each law is a named predicate (`Lawful`, `Fitting`, `Associative`) and a
hypothesis of the members that need it; nothing is assumed elsewhere.

A drive is any function from the commands sent so far to a reply, so what is
proved against it holds for every drive, adaptive ones included.  The key
waterfall runs the reader and the search of the Media Key Block on the bytes of
its file, and the handshake on that drive; its parameters are those bytes, the
drive and all that was sent to it before, the keys and certificates, the numbers
drawn, and what the copy control file of a unit says.  Writing a cache file may
stop anywhere, except in a cache that is said to be reliable.

What the functions behind the main results mean is stated a second time, in terms
that do not use them, and proved equivalent: derivations in encryptions alone
(`GeneratedKeys`, `DescendsOnPath`, `DecryptIff`, `OpensIff`, `VukIff`,
`IsCodeIff`), the words of the Media Key Block as numbers (`BitOfNat`,
`MatchesIff`), layouts as bytes (`LayoutOfRecords`, `TypeDecides`, `CheckedIff`,
`ListOfRecords`), the handshake as the messages that pass
(`SuccessWasAuthenticated`), and the curve as chords and tangents
(`ChordAndTangent`).

Where the code departs from its own comments or its purpose, the model follows
the code, and the exact condition is proved:

- `ec.c:390-391`: the addition takes the second abscissa from the first point
  when z1 is one. `AddIsRightExactlyWhenSafe` for one addition; for a whole
  multiplication `RightIffOrder`, `RightIffLost`, `RightExactlyWhenSafe` and the
  run `FailingRun`.
- `aacs.c:339`: entries for the device 0xffffffff at the head of the list are
  never tried. `MediaKeyTheorem`, `UseIssuedBlock`, `SingleDevice`.
- `unit_key.c:194`: the size check for the stride of 64 compares with a key count
  of zero. `WideStrideOverruns`; `ReadsStayInside` says when the reads stay inside.
- `unit_key.c:191`: the place that tells the strides apart is counted from the
  start of the file and not of its keys, so a file with the stride of 64 can be
  read with that of 48. `ParseWide`, `WithoutTitles`.
- `keydbcfg.c:358-394` and `aacs.c:812-821`: a cached key that cannot be read can
  leave bytes in the buffer that then pass for a configured key. `FailedFind`,
  `DamagedTextIsUsed`.
- `aacs.c:1423-1447`: after a failure in place a unit can look plain, and a second
  call reports success. `FlagAfterAttempt`, `DecryptTwice`, `RetryPasses`.
- `aacs.c:1530-1550`: a volume ID that a failed reading of the cache or of the drive
  left in memory is handed out. `GivenVidIsTrue`, `DamagedVidIsGiven`,
  `MismatchIsGiven`, `LiarIsBelieved`.
- `aacs.c:1011` and `aacs.c:1068`: a copy control file that cannot be read counts as
  that of an unencrypted unit. `PassRightlyIff`, `WithoutAnyKey`.
- `aacs.c:127`: half of the verification data is compared, so a processing key can
  pass without giving the media key. `UseProcessingKeys`, `UseAllKeys`.
- `aacs.c:360-364` and `aacs.c:598`: an end entry with the number zero ends one
  search and not the other. `SearchesAgree`.
- `crypto.c:812`: with a shared x-coordinate of fewer than sixteen bytes the bus
  key takes in what lies in front of the buffer. `SameBusKeyIff`.
- `aacs.c:519-545`: a Media Key Block file without four bytes behind its last
  record is refused. `ReadsAllRecords`.

## Model

| member | source | states |
|---|---|---|
| Bytes.ReadsValue | src/util/macro.h:25-28 | the four big-endian readings give the number that the bytes spell |
| Words.BitOfNat | src/libaacs/aacs.c:359 | bit i of a word read from a number is one if and only if the number divided by 2^i is odd, for all 32 bits |
| Words.ReadsBack | src/libaacs/aacs.c:359 | a word read from a 32-bit number has that number back as the sum of its bits |
| Words.SameAtNode | src/libaacs/aacs.c:369 | a device number and an entry agree under the mask of the entry if and only if they agree after division by twice the largest power of two that divides the entry |
| Words.SameAtHeight | src/libaacs/aacs.c:366-369 | and under the mask of a shift if and only if they agree after division by that power of two |
| Words.XorIsBitwise | src/libaacs/aacs.c:115-117 | exclusive-or as the models compute it has exactly the bits in which its operands differ |
| Words.CalcVMask | src/libaacs/aacs.c:219-228 | for every nonzero number the loop ends with the mask of its lowest one bit: the only height whose mask lets nothing of the number through but that bit |
| Words.LetsNothingThrough | src/libaacs/aacs.c:223-225 | the loop test fails exactly at masks of at least that height |
| SubsetDifference.AesG3 | src/libaacs/crypto.c:109-126 | one generated key, with the last byte of the constant raised in place: encrypting, under the label, that key combined with the constant so ended gives the constant |
| SubsetDifference.GenerateKeys | src/libaacs/crypto.c:188-206 | the three keys of a label, each in its own array: left label, right label, and the processing key between them |
| SubsetDifference.GeneratedKeys | src/libaacs/crypto.c:109-206 | in encryptions alone: the left label belongs to the constant that ends in D9, the processing key to DA, the right label to DB |
| SubsetDifference.GeneratedOnly | src/libaacs/crypto.c:109-126 | and no other key belongs to that constant |
| SubsetDifference.DescendsOnPath | src/libaacs/aacs.c:230-266 | the walk from a label down to a node is the path, read from the number: at each height the left or the right label is taken as the bit of the number is zero or one, and the processing key is generated at the end |
| SubsetDifference.OneOnPath | src/libaacs/aacs.c:230-266 | that path has one processing key |
| SubsetDifference.DescendInStages | src/libaacs/aacs.c:230-266 | walking down the label tree in two stages is walking at once, so any stored label on the way serves |
| SubsetDifference.CompleteKeysExist | src/libaacs/aacs.c:271-306 | every device can be given keys that are issued to it and complete, so the hypotheses of the theorems can be met |
| SubsetDifference.FindDk | src/libaacs/aacs.c:271-306 | the search returns the first accepted entry of the device, with the mask of its node |
| SubsetDifference.ApplyingKey | src/libaacs/aacs.c:285-294 | every issued key that the search can accept for a subset with the device in it hangs off at the one height where subset number and device number part; its node is v or an ancestor of v, and its label is the one on the path from u to v |
| SubsetDifference.HasApplyingKey | src/libaacs/aacs.c:271-306 | a device with complete keys has such a key for every subset that contains it |
| SubsetDifference.WalkEnds | src/libaacs/aacs.c:240-266 | shifting a key mask right with sign extension reaches the mask of v if and only if the node of the key is v or an ancestor of v |
| SubsetDifference.HighestZero | src/libaacs/aacs.c:242-247 | the inner loop finds the height of the mask |
| SubsetDifference.CalcPk | src/libaacs/aacs.c:230-269 | the processing key is generated from the label at v, after exactly as many steps as v lies below the node of the key; under any cipher it is the one at the end of the path that the number of the entry spells from there, every label on it and the key itself checked by encryption |
| SubsetDifference.DerivesSubsetKey | src/libaacs/aacs.c:230-306 | from any accepted key the walk gives the key of the subset S(u, v): the middle value of the recursively defined label at v |
| SubsetDifference.SubsetKeyOnPath | src/libaacs/aacs.c:230-306 | the key of a subset is the one that the authority finds, by encryption, at the end of the path from the root label of u to v |
| SubsetDifference.SameProcessingKey | src/libaacs/aacs.c:230-306 | two devices in one subset, starting from different stored keys at different heights, derive one processing key |
| MediaKey.ValidatePk | src/libaacs/aacs.c:98-133 | the buffer receives the candidate, valid or not: under the processing key it encrypts, with its last four bytes combined with the number of the entry, to the media key data; success if and only if the verification data decrypt to the two words 0x01234567 and 0x89ABCDEF |
| MediaKey.FindSubset | src/libaacs/aacs.c:341-372 | the search stops at the first entry whose subset contains the device, and finds none if a terminator or the count comes first; on the bytes of the entries: the number is not zero, the device agrees with it after division by two to the shift, and does not after division by twice the largest power of two that divides it |
| MediaKey.MatchesIff | src/libaacs/aacs.c:359-371 | membership in an entry through masks is that membership on its bytes, for every entry with a shift of at most 31 |
| MediaKey.EndsIff | src/libaacs/aacs.c:352-366 | where the search may end, on the bytes: a number that is not zero with a shift of 64 or more, or the count |
| MediaKey.LayoutOfRecords | src/libaacs/aacs.c:316-329 | for every list of records the entries are the first record of type 4, the media key data that of type 5, whose length alone gives the number of entries, and the verification data are where the type of the block says |
| MediaKey.TryDevice | src/libaacs/aacs.c:331-422 | one device: nothing happens without an applying subset and key; otherwise its candidate is in the buffer |
| MediaKey.CalcMkDks | src/libaacs/aacs.c:308-426 | result and buffer are those of trying the candidates of the listed devices in order; missing records are a corrupted disc and leave the buffer alone |
| MediaKey.CandidateSound | src/libaacs/aacs.c:374-416 | every candidate that is tried is the media key, and its device is covered |
| MediaKey.CandidateComplete | src/libaacs/aacs.c:331-416 | every covered device with complete keys has a candidate where it is first listed |
| MediaKey.MediaKeyTheorem | src/libaacs/aacs.c:308-426 | for every block that carries a media key and every list of complete device-key sets, in any order: success with the media key if and only if some device listed behind the leading entries for device 0xffffffff lies in a subset met before the end of the search, otherwise no device key and the buffer as it was; and that is the intended result if and only if no such entries lead, or their device is not covered, or another listed one is |
| MediaKey.LeadingEntriesIgnored | src/libaacs/aacs.c:331-339 | however many entries for device 0xffffffff lead the list, they are passed over, covered or not |
| MediaKey.SingleDevice | src/libaacs/aacs.c:331-342 | the complete keys of one covered device give the media key if and only if its number is not 0xffffffff |
| Issue.IssuedCarries | src/libaacs/aacs.c:308-329 | a block issued for any list of subsets, in the record format, with any end entry that has a number and any other half of the verification data, carries the media key where the code looks for it, and the search ends at the end of the list |
| Issue.UseIssuedBlock | src/libaacs/aacs.c:308-426 | issue and use: on a block issued for any list of subsets and any media key, the code with the complete keys of any devices gives that media key if and only if one of the devices, not counting leading entries for 0xffffffff, is in one of the subsets; and when that is the intended result |
| Issue.IssuedReadable | src/libaacs/aacs.c:582-626 | neither way of reading an issued block, by device keys or by processing keys, leaves it |
| MediaKey.CalcMkPks | src/libaacs/aacs.c:582-626 | result and buffer are those of trying every processing key with every entry, key by key |
| MediaKey.PlainIff | src/libaacs/aacs.c:590-602 | the entries that processing keys go through: up to the first with a shift of 64 or more, or to the end of their record |
| MediaKey.ScanPksIff | src/libaacs/aacs.c:613-625 | success if and only if some listed processing key and some entry give a key that verifies, and the buffer then holds the key that the first such pair gives, in the order of the loops |
| MediaKey.OneProcessingKey | src/libaacs/aacs.c:582-626 | the processing key of any one entry is enough to succeed, and gives the same media key as the device keys do if it is the first to give a key that verifies |
| MediaKey.DeriveMk | src/libaacs/aacs.c:662-668 | device keys first, and processing keys unless they succeed: result and buffer of both |
| MediaKey.DerivedIsTrue | src/libaacs/aacs.c:662-668 | what device keys give is the media key; what processing keys give is the media key if and only if the first pair that verifies gives it |
| Issue.UseProcessingKeys | src/libaacs/aacs.c:582-626 | on an issued block, under any cipher, processing keys succeed if and only if one of them passes for a subset, and give the media key if and only if the first one that passes opens what is there |
| Issue.UseDistinctKeys | src/libaacs/aacs.c:582-626 | when no listed key passes without opening, they succeed, with the media key, if and only if one of them opens |
| Issue.SubsetKeyOpens | src/libaacs/aacs.c:98-133 | the processing key of a subset opens what is there for it |
| Issue.UseAllKeys | src/libaacs/aacs.c:662-668 | on an issued block, under any cipher, the computation with both kinds of keys succeeds if and only if some listed device, not counting leading entries for 0xffffffff, is in a subset or some processing key passes; and gives the media key if and only if there is such a device or the first processing key that passes opens |
| Issue.SearchesAgree | src/libaacs/aacs.c:329-377 | the search for devices ends where the count for processing keys does, if and only if the entry that ends the list has a number other than zero |
| Mkb.GetRecord | src/libaacs/mkb.c:37-71 | the walk returns the record that the recursive reading of the block finds; a truncated record or a record of length zero ends it |
| Mkb.FindsFirstRecord | src/libaacs/mkb.c:37-71 | for every list of records followed by zero padding the walk returns exactly the first record of the requested nonzero type, with its body, or nothing if there is none |
| Mkb.TypeDecides | src/libaacs/mkb.c:141-221 | for such a list type and version are the two words of the first record of type 16, and the verification data the first sixteen bytes of the first record of type 134 in a category C block of either generation, 0x48141003 or 0x48151003, and of type 129 in any other |
| Mkb.DataSize | src/libaacs/mkb.c:105-123 | the end of the records, cut to the buffer, when every typed record has a length |
| Mkb.DataSizeIsTotal | src/libaacs/mkb.c:105-123 | for such a list the data size is the sum of the record lengths |
| MkbReader.ReadMkbFile | src/libaacs/aacs.c:491-551 | the growing-buffer reader ends, stays in its buffer, and returns the file up to and with the header at which the walk over the records stops; nothing if there is no such header |
| MkbReader.ReadsAllRecords | src/libaacs/aacs.c:519-545 | a file of well-formed records is returned, with four bytes of its padding, exactly when it has at least four bytes of padding |
| Field.ModIsRemainder | src/libaacs/ec.c:104-127 | the residue that the modular operations are defined with is the remainder of division |
| AffineCurve.AddOnCurve | src/libaacs/ec.c:330-472 | the chord-and-tangent sum of two points of the curve is on the curve |
| AffineCurve.ChordAndTangent | src/libaacs/ec.c:330-472 | the sum is that of chord and tangent: opposite points give infinity; else a line passes through both points and the reflection of their sum, and the cubic minus the square of the line has their three abscissae as its roots, repeated for a tangent |
| AffineCurve.AddCommutes | src/libaacs/ec.c:330-472 | the chord-and-tangent sum does not depend on the order |
| Jacobian.JOnCurveIff | src/libaacs/ec.c:214-242 | a Jacobian point satisfies Y^2 = X^3 + aXZ^4 + bZ^6 or is at infinity if and only if its affine point is on the curve |
| Jacobian.DoubleRefines | src/libaacs/ec.c:246-327 | the doubling formula represents the affine double of every point, infinity and points of order two included |
| Jacobian.AddRefines | src/libaacs/ec.c:330-472 | the addition formula of the standard represents the affine sum for all points: infinity on either side, equal, opposite and distinct ones |
| EllipticCurve.FastSlope | src/libaacs/ec.c:258-269 | for a = p - 3 the short form of the slope is the general one |
| EllipticCurve.DupPoint | src/libaacs/ec.c:246-327 | doubling in place computes the doubling formula, also when the result is the argument, in both branches for a |
| EllipticCurve.AddPoints | src/libaacs/ec.c:330-472 | addition in place computes what the code says, also when the result is an argument |
| EllipticCurve.SafeAddRefines | src/libaacs/ec.c:330-472 | outside the branch of lines 390 to 391 the addition as coded represents the affine sum |
| EllipticCurve.AddIsRightExactlyWhenSafe | src/libaacs/ec.c:390-396 | for points of the curve and z2 = 1 the addition as coded is right if and only if z1 is not one or the abscissae are equal |
| EllipticCurve.UnsafeExample | src/libaacs/ec.c:390-391 | on y^2 = x^3 + 2x + 1 modulo 5 the coded sum of (0, 1) and (1, 2) is infinity, and their sum is not |
| ScalarMul.DigitsSumToScalar | src/libaacs/ec.c:520-549 | for every scalar of at least one the digits bit(3k) - bit(k), with the initial copy as leading digit, sum with their weights to the scalar |
| ScalarMul.NonAdjacent | src/libaacs/ec.c:533-549 | no two consecutive iterations both add |
| ScalarMul.FewAdditions | src/libaacs/ec.c:533-549 | at most half the iterations, rounded up, add |
| ScalarMul.MulPoint | src/libaacs/ec.c:475-556 | the method ends in the state of the walk over the digits from the top, starting at the point itself, adding its normalized copy |
| SmallCurve.AssociativeExists | src/libaacs/ec.c:330-472 | there is a curve whose law is associative, with a finite point and none of order two: the one hypothesis about the curve can be met |
| ScalarMul.WalkOnCurve | src/libaacs/ec.c:533-549 | every iteration keeps the accumulator on the curve or at infinity, the faulty branch included |
| Fault.RightIffOrder | src/libaacs/ec.c:475-556 | for every curve, finite point and scalar of at least one: the code computes a multiple of the point, by the scalar that its steps come to, and that is right if and only if the order of the point divides the difference of the two scalars |
| Fault.RightIffOneFault | src/libaacs/ec.c:475-556 | with one addition that meets the faulty branch, in iteration j: right if and only if the order of the point divides 2^(j-1) times the slip there |
| Fault.RightIffLost | src/libaacs/ec.c:475-556 | and when that addition gives infinity: right if and only if the order divides 2^(j-1) times the number that the digits from j on stand for |
| Fault.RightIff | src/libaacs/ec.c:475-556 | for every curve, finite point and scalar of at least one: the multiplication is right if and only if the error after its last addition that meets the faulty branch, doubled once for every iteration that remains, vanishes |
| Fault.RightExactlyWhenSafe | src/libaacs/ec.c:475-556 | without a point of order two, a multiplication in which at most one addition meets the faulty branch is right if and only if none does |
| Fault.NoOrderTwoIff | src/libaacs/ec.c:246-327 | there is no point of order two exactly when no point of the curve has ordinate zero |
| Fault.StepIsRightIff | src/libaacs/ec.c:533-549 | an iteration that starts from a right value ends in a right one if and only if its addition does not meet the branch |
| Fault.ErrorTravels | src/libaacs/ec.c:533-549 | an accumulator that is off by E ends off by E doubled once for every iteration that remains, if the branch is not met any more |
| Fault.FailingRun | src/libaacs/ec.c:475-556 | on y^2 = x^3 + 2 modulo 5 the multiplication of (4, 1) by three ends at infinity, and three times the point is finite |
| ScalarMul.GetAffine | src/libaacs/ec.c:214-242 | failure exactly at infinity; otherwise the affine point, which for a point of the curve satisfies the affine equation |
| ScalarMul.SharedPoint | src/libaacs/crypto.c:772-823 | in the group of the curve, two parties who each multiply the other's multiple of a point get the same point |
| CurveCrypto.MultiplyPoint | src/libaacs/crypto.c:781-805 | multiplication and conversion to two coordinates: they end in the affine point of the walk, and without coordinates exactly at infinity |
| CurveCrypto.ComputesMultiplication | src/libaacs/crypto.c:781-805 | the point that the code computes is a multiple, and the one that is meant if and only if the order of the point divides the difference of the scalars |
| CurveCrypto.SharedByCode | src/libaacs/crypto.c:772-879 | host and drive, each multiplying by the code the point that the other computed, meet in one point when all four multiplications go right |
| CurveCrypto.MultiplyCommutes | src/libaacs/crypto.c:772-823 | multiplication of coordinate pairs commutes, infinity included |
| CurveCrypto.LawsOfMultiplication | src/libaacs/crypto.c:772-879 | the two laws that the handshake takes as given about multiplication hold on every curve with an associative law, a modulus of at most twenty bytes and a constant term other than zero |
| CurveCrypto.AacsGeneratorOnCurve | src/libaacs/crypto.c:72-97 | the generator satisfies the equation of the AACS curve, which has no singular point and does not pass through the origin, and whose a is p - 3 |
| UnitCipher.CbcRoundTrip | src/libaacs/crypto.c:274-296 | chained decryption undoes chained encryption, for every length |
| UnitCipher.DecryptIff | src/libaacs/crypto.c:274-296 | in encryptions alone: a text is the chained decryption if and only if each of its blocks, combined with the sealed block before it, encrypts to its own |
| UnitCipher.UnitRoundTrip | src/libaacs/aacs.c:1206-1240 | opening a unit sealed under its unit key gives the unit back |
| UnitCipher.OpensIff | src/libaacs/aacs.c:1206-1231 | a unit is the opened one if and only if its first sixteen bytes stay and the rest is deciphered, from the prescribed vector, under a block key that, combined with those sixteen bytes, decrypts under the unit key to them |
| UnitCipher.BusRoundTrip | src/libaacs/aacs.c:1399-1412 | opening a unit bus-encrypted sector by sector gives it back |
| UnitCipher.BusRemovedIff | src/libaacs/aacs.c:1399-1412 | and the bus layer is removed if and only if in each of the three sectors sixteen bytes stay and 2032 are deciphered under the bus key itself |
| UnitCipher.VerifyTs | src/libaacs/aacs.c:1192-1204 | success if and only if every packet has its sync byte; the copy permission bits are cleared in the packets before the first bad one and nowhere else |
| UnitCipher.CheckedIff | src/libaacs/aacs.c:1192-1204 | byte by byte: accepted if and only if bytes 4, 196, and so on are all 0x47; the first byte of a packet loses its two high bits if and only if every packet up to it has its sync byte, and no other byte changes |
| UnitCipher.StreamIff | src/libaacs/aacs.c:1192-1204 | the walk over the packets accepts exactly the units all of whose packets have the sync byte |
| UnitCipher.ClearedBytes | src/libaacs/aacs.c:1200-1201 | clearing changes the two high bits of the first byte of the packets it reaches and no other byte |
| Session.DecryptInPlace | src/libaacs/aacs.c:1206-1240 | decryption in place: the buffer and the result as a function of key and old buffer; under any cipher the old buffer opens, in encryptions alone, to a unit whose packets, byte by byte, give result and new buffer |
| Session.DecryptCopy | src/libaacs/aacs.c:1206-1240 | decryption from one buffer to another gives the same bytes and the same result, with the same meaning, and leaves its input alone |
| Session.PlayedIff | src/libaacs/aacs.c:1206-1240 | what an attempt gives is exactly what opening in encryptions alone and checking byte by byte give |
| Session.BothLayers | src/libaacs/aacs.c:1206-1240 | a unit sealed under a unit key and then bus-encrypted per sector comes back verified, with all its copy permission bits cleared |
| Session.FlagAfterAttempt | src/libaacs/aacs.c:1423-1427 | after an attempt the unit still counts as encrypted exactly when its first packet is bad |
| Session.DecryptTwice | src/libaacs/aacs.c:1423-1465 | two calls on one unit: the first succeeds exactly when the opened unit is a stream; the second succeeds exactly when its first packet looks right, and then does nothing, or when opening once more what the first call left gives a stream |
| Session.RetryPasses | src/libaacs/aacs.c:1423-1465 | a unit of which only a later packet is bad fails, and a second call on the same buffer reports success |
| Session.FirstVerifyingIsFirst | src/libaacs/aacs.c:1450-1461 | detection takes the least index whose output verifies |
| Session.DetectsOwnKey | src/libaacs/aacs.c:1450-1461 | a sealed unit is detected at the index of its key and restored, when no earlier key gives a stream |
| Session.Aacs.SelectTitle | src/libaacs/aacs.c:1714-1741 | every title selection keeps the selected unit inside the key array; the first play title leaves it to be detected; an unknown title changes nothing |
| Session.Aacs.DecryptUnitBus | src/libaacs/aacs.c:1399-1412 | the bus layer is removed in place, sector by sector under the read data key, if and only if disc and drive use it |
| Session.Aacs.DecryptUnit | src/libaacs/aacs.c:1423-1465 | all results and the whole new state: a unit whose first byte is below 64 and missing keys change nothing; the key in force is applied; or the first verifying key is found and stays selected, and on failure only the bus layer is removed; each of these also on the bytes and in encryptions alone, bus layer included; the session stays valid |
| Session.PlayUnit | src/libaacs/aacs.c:1423-1465 | over a title selection and two calls on a sealed unit of that title: both succeed, and the unit is the original one with its copy permission bits cleared |
| UnitKey.ParseHeader | src/libaacs/unit_key.c:56-89 | the header fields, and failure exactly without 20 bytes or a BDMV directory |
| UnitKey.DivisionCheck | src/libaacs/unit_key.c:176-183 | the division check accepts exactly the counts whose last key lies inside the file at the stride of 48 |
| UnitKey.WideStrideCheck | src/libaacs/unit_key.c:185-196 | what the stride of 64 needs |
| UnitKey.ReadsStayInside | src/libaacs/unit_key.c:176-229 | the keys of a file that passes every check lie inside it at the stride that is chosen, if and only if that is the stride of 48 or the file reaches 64 bytes a key beyond the key position |
| UnitKey.WideStrideOverruns | src/libaacs/unit_key.c:185-196 | a file that passes every check, header included, and whose last key at the stride of 64 is outside: the comparison uses a key count that is still zero |
| UnitKey.ParseUks | src/libaacs/unit_key.c:151-229 | success exactly when position, count and division check fit; then every key at its stride, else no key; under the size hypothesis for the stride of 64 |
| UnitKey.AssignTitles | src/libaacs/unit_key.c:91-149 | success exactly when the title map fits; every stored index is that of the title's number, or zero if the number is not that of a key |
| UnitKey.Parse | src/libaacs/unit_key.c:231-261 | a file is refused exactly when header or key data do not fit; the result is valid: as many keys as counted, every title's index below the count; a bad title map is not fatal; refusal, every key and every title also by the bytes of the file, at the stride that they decide |
| UnitKey.RoundTrip | src/libaacs/unit_key.c:231-261 | printing and then parsing recovers every key and the whole title map, for any number of keys and titles, when the file was printed at the stride that the parser chooses |
| UnitKey.ParseWide | src/libaacs/unit_key.c:185-196 | a file printed with the wide stride is parsed right if and only if it has one key, or something other than zeros stands at bytes 112 to 127 of the file, or all keys but the first are empty |
| UnitKey.WithoutTitles | src/libaacs/unit_key.c:185-196 | without titles zeros stand there, so with two keys or more the narrow stride is chosen |
| Auth.PaddedMinimal | src/libaacs/crypto.c:613-622 | left padding to a fixed width preserves the integer |
| Auth.PrintPadded | src/libaacs/crypto.c:613-622 | printing, moving to the right end and clearing in front gives the fixed-width form in place and touches nothing else |
| Auth.CreateHostKeyPair | src/libaacs/crypto.c:825-879 | the forty bytes decode to the secret times the generator |
| Auth.SameBusKey | src/libaacs/crypto.c:772-823 | host and drive derive one bus key for every pair of secrets, the lowest 128 bits of the shared x-coordinate, if that has at least sixteen bytes |
| Auth.SameBusKeyIff | src/libaacs/crypto.c:772-823 | whatever lies in front of the buffer, host and drive derive one bus key, if and only if the shared x-coordinate has at least sixteen bytes |
| Auth.OwnSignatureVerifies | src/libaacs/crypto.c:564-636 | an own signature verifies after passing through its padded form |
| Auth.CdbInjective | src/libaacs/mmc.c:58-124 | different commands have different command blocks or data |
| Auth.CdbFields | src/libaacs/mmc.c:58-124 | operation, key class or medium, length, AGID and format stand in the command block where the drive reads them, and all else is zero |
| Auth.Mmc.InvalidateAgids | src/libaacs/mmc.c:156-164 | four commands, one for each AGID |
| Auth.Mmc.AacsAuth | src/libaacs/mmc.c:451-548 | success exactly when the drive gave a certificate of the licensing administrator, its verified signature over the host nonce and its own point, the host's own signature verifies, and the drive takes it; the bus key and the commands sent; a revoked certificate is reported exactly when the drive refuses the host certificate |
| Auth.CertifiedIff | src/libaacs/crypto.c:640-760 | a certificate passes if and only if it is of its kind, gives its length as 92, and bytes 52 to 91 verify, under the licensing administrator's key written out, as a signature over its first 52 bytes |
| Auth.Mmc.ReadCoded | src/libaacs/mmc.c:554-618 | an identifier is accepted exactly when its code matches under the bus key; it is in the caller's buffer either way |
| Auth.Mmc.ReadDataKeys | src/libaacs/mmc.c:620-656 | the read data key is the drive's answer decrypted under the bus key |
| Auth.Mmc.ReadAuth | src/libaacs/mmc.c:658-702 | against any drive: success if and only if there is an exchange, told in its bytes, in which host and drive authenticate each other and the request is answered, and the buffer and the commands are those of that exchange; a failure is that of a refused host certificate or any other; the result, the buffer and every command sent, in every case |
| Auth.RunIsClosed | src/libaacs/mmc.c:658-702 | against any drive and on every path the run begins by invalidating all AGIDs, and after a grant its last command invalidates the one granted, and none before it does |
| Auth.SuccessWasAuthenticated | src/libaacs/mmc.c:658-702 | a run succeeds if and only if there is such an exchange: the messages with their lengths; a drive certificate of kind 1 that verifies under the licensing administrator's key; the drive's signature, by the key in that certificate, over the host nonce and its own point; the host's over the drive nonce and its own point, made with its private key and verified under its certificate; a bus key of the lowest 128 bits of the shared x-coordinate, or of what lies in front of the buffer when that is too short; and for an identifier a matching code, for data keys their decryption |
| Auth.HonestPairExists | src/libaacs/mmc.c:451-548 | the conditions on an honest pair can be met |
| Auth.HonestRun | src/libaacs/mmc.c:658-702 | an honest host is told the volume ID, the serial number or the read data key by an honest drive, whatever was sent before |
| Auth.ReadHonestly | src/libaacs/mmc.c:658-702 | the same for one call |
| Auth.ReadWithCerts | src/libaacs/aacs.c:688-739 | over all host certificates, with one session: result and buffer of the attempts in order; success if and only if the drive serves the host, in such an exchange, under one that is of kind 2 and verifies under the licensing administrator's key, and the buffer is that of the first such; otherwise the failure of the last one presented |
| Auth.CertsServedIff | src/libaacs/aacs.c:688-739 | the same for every list, trace and buffer to begin with |
| Auth.HonestCertFound | src/libaacs/aacs.c:688-739 | one certificate of an honest host is enough, wherever it stands in the list, whatever attempts go before it |
| Cmac.Shl128 | src/libaacs/crypto.c:211-220 | the byte-wise carry loop doubles the number modulo two to the number of its bits |
| Cmac.DoubleKey | src/libaacs/crypto.c:230-239 | shift and conditional exclusive-or are multiplication by x in the field |
| Cmac.CmacKey | src/libaacs/crypto.c:222-242 | the two subkeys are L times x and L times x^2 in GF(2^128), as in section 2.3 of RFC 4493 |
| Cmac.SmallProducts | src/libaacs/crypto.c:230-239 | two and four, as polynomials, multiply by x and x^2 |
| Cmac.AesCmac16 | src/libaacs/crypto.c:244-268 | on every message of sixteen bytes the code is that of the general algorithm, section 2.4 of RFC 4493: the message, combined with a subkey that doubles the encryption of zero, encrypted once |
| Cmac.IsCodeIff | src/libaacs/crypto.c:222-268 | that is what the general algorithm gives for sixteen bytes, and nothing else is |
| HexText.PrintHex | src/util/strutl.c:247-258 | two digits a byte, of 0 to 9 and a to f, and a terminator |
| HexText.ParseHex | src/util/strutl.c:122-140 | success exactly when all pairs are digits, in either case; the bytes before the first bad pair are those that the digits spell, written even on failure, and no other byte is |
| HexText.NibbleIff | src/util/strutl.c:37-117 | a digit has the value of its place among the sixteen, in either case, and nothing else has a value |
| HexText.HexRoundTrip | src/util/strutl.c:122-140 | parsing what was printed gives the bytes back, whatever text follows |
| KeyCache.Cache.Save | src/file/keydbcfg.c:325-356 | the file becomes a beginning of the key's text, or nothing changes; all of it on success, and always when writes succeed |
| KeyCache.Cache.Find | src/file/keydbcfg.c:358-394 | success exactly when the file holds enough digits; the buffer in every case: the bytes that the digits spell up to the first bad pair |
| KeyCache.TrueFind | src/file/keydbcfg.c:358-394 | what is read from a file that holds the text of a key, whole or cut short, is the key or nothing at all |
| KeyCache.SavedIsFound | src/file/keydbcfg.c:325-394 | a saved key is found again |
| KeyCache.FailedFind | src/file/keydbcfg.c:358-394 | a failed read leaves the empty buffer empty, except exactly when the file is long enough and has a byte other than zero before its first bad pair |
| KeyCache.DamagedExample | src/file/keydbcfg.c:358-394 | such a text |
| Waterfall.OpenMkb | src/libaacs/aacs.c:553-576 | the file that is read, or else its backup |
| Waterfall.DeriveMediaKey | src/libaacs/aacs.c:650-668 | the result is that of both kinds of keys on the block that was read: a corrupted disc without block or without its records, no processing key when none fits; kept revocation lists advance |
| Waterfall.CalcMk | src/libaacs/aacs.c:632-682 | a media key is returned exactly when it is there, cached or yielded by the Media Key Block, else the failure of the block; with true sources it is the disc's, and the cache stays true; one from the block is in memory afterwards and, when writes succeed, found in the cache; kept revocation lists only advance |
| Waterfall.ReadVid | src/libaacs/aacs.c:741-760 | a volume ID is returned exactly when one is there or the drive yields it over the host certificates, else the failure of the drive; a failed attempt leaves what the drive sent in memory; with true sources a success is the disc's, and the cache stays true; one from the drive is found in the cache when writes succeed |
| Waterfall.CalcVuk | src/libaacs/aacs.c:807-863 | a volume unique key is returned exactly when it is there, cached, or can be computed from a configuration, else the failure of the step that fails; one that is computed, combined with the volume ID, encrypts to the volume ID under the media key; with true sources it is the disc's; without a configuration nothing but the buffer changes, and that only as reading the cache leaves it |
| Waterfall.VukIff | src/libaacs/aacs.c:841-850 | a key is the volume unique key of media key and volume ID if and only if, combined with the volume ID, it encrypts to the volume ID under the media key |
| Waterfall.ObtainAgain | src/libaacs/aacs.c:807-863 | over two calls: a volume unique key that was obtained once is found again without configuration, Media Key Block or drive, when it could be saved |
| Waterfall.UseEntry | src/libaacs/aacs.c:885-955 | the unit keys of the entry are taken exactly when their number is right or no volume unique key can be had; the key count grows to theirs |
| Waterfall.FirstOfDisc | src/libaacs/aacs.c:885-955 | the entry is the first one of the disc |
| Waterfall.DecryptKeys | src/libaacs/aacs.c:1062-1086 | without a volume unique key, success exactly when no unit is encrypted, else its failure; on success every key encrypts, under the volume unique key, to that of the file |
| Waterfall.CalcUks | src/libaacs/aacs.c:1022-1087 | failure exactly when no volume unique key can be had, the configuration has no unit keys, and some copy control file says that its unit is encrypted, and it is that of the step that failed; with true sources all keys are the disc's except in the two cases named; the cache stays true |
| Waterfall.SeemUnencryptedIff | src/libaacs/aacs.c:1009-1020 | units pass for unencrypted if and only if no copy control file that can be read says otherwise |
| Waterfall.PassRightlyIff | src/libaacs/aacs.c:1009-1020 | with truthful files they pass rightly if and only if none is encrypted or one that is has a file that can be read |
| Waterfall.WithoutAnyKey | src/libaacs/aacs.c:1066-1074 | without any key and without a readable copy control file, success |
| Waterfall.CoherentKeys | src/libaacs/aacs.c:1022-1087 | when cache, configuration, Media Key Block and drive agree with the disc's keys there is one answer or none, whichever path is taken, and every cache write keeps the cache true; the answer encrypts to the keys of the file under a key that, combined with the volume ID, encrypts to it under the media key |
| Waterfall.DamagedTextIsUsed | src/libaacs/aacs.c:812-821 | a cached text that could not be read counts as a configured key afterwards exactly when it left a byte other than zero behind |
| Waterfall.GetVid | src/libaacs/aacs.c:1528-1551 | what is handed out as volume ID, and what is in memory after it |
| Waterfall.GivenVidIsTrue | src/libaacs/aacs.c:1528-1551 | it is the disc's volume ID or nothing if and only if: a text in the cache, read as far as it can be, spells that volume ID; or there is no such text, and the drive is not asked or does not, under the last certificate under which it sends an identifier, send a wrong one whose code does not match |
| Waterfall.DamagedVidIsGiven | src/libaacs/aacs.c:1530-1550 | a damaged text in the cache is handed out as far as it could be read, and the drive is not asked |
| Auth.WhatRemains | src/libaacs/aacs.c:688-739 | when no certificate succeeds, the buffer is as it was if no identifier arrived, and else holds the one that arrived last |
| Auth.MismatchDecides | src/libaacs/aacs.c:688-739 | an identifier that arrives last and whose code does not match is what is left |
| Waterfall.MismatchIsGiven | src/libaacs/aacs.c:1537-1550 | that identifier is then handed out |
| Waterfall.LiarIsBelieved | src/libaacs/aacs.c:1537-1550 | a drive that is honest but alters the code has any volume ID that it holds handed out |
| Disc.ReadReadDataKey | src/libaacs/aacs.c:762-792 | the read data key comes from the drive over the host certificates, or else from the cache; one from the drive is found in the cache afterwards when writes succeed; the keys in the cache stay true |
| Disc.ReadUnitKeys | src/libaacs/aacs.c:1093-1126 | the unit key file is used when it is larger than 2048 bytes and taken, or else its backup; what is in memory is what that file holds, by its bytes |
| Disc.Open | src/libaacs/aacs.c:1332-1378 | after opening, the session is valid; when it succeeds on a disc with keys they are loaded and the selected unit is one of them, and the title map is that of the file in use; when all sources agree with the disc it succeeds with the disc's keys; bus encryption needs a configuration and takes the drive's read data key |
| Disc.OpenAndDecrypt | src/libaacs/aacs.c:1423-1465 | over opening, title selection and decryption: a unit sealed under its title's key and then by the drive comes out as it was, with its copy permission bits cleared, whichever way the keys came |
| Playback.PublishedYields | src/libaacs/aacs.c:632-682 | a Media Key Block file as it was issued, with at least four bytes of padding, under any cipher, yields a key if and only if a listed device is in a subset or a processing key passes, and the media key if and only if there is such a device or the first key that passes opens |
| Playback.DriveTells | src/libaacs/aacs.c:688-792 | an honest drive yields the volume ID and the read data key when one of the host certificates is an honest host's |
| Playback.PlayFromDisc | src/libaacs/aacs.c:1332-1465 | from end to end, under any cipher: a Media Key Block issued for any list of subsets, device keys of which one fits or processing keys of which the first that passes fits, an honest drive and host, any true cache, and a unit sealed under the key of its title and by the drive: opening, title selection and decryption give the original unit with its copy permission bits cleared |
| Instance.HonestPairPlays | src/libaacs/aacs.c:1332-1465 | every honest pair of host and drive, with a lawful cipher, has a disc and a unit for which all that is asked for holds |
| Instance.ReadyExists | src/libaacs/aacs.c:1332-1465 | and there is such a pair |
| RevocationList.GuardAgainstWrap | src/libaacs/aacs.c:146-152 | the guard keeps the 32-bit length arithmetic from wrapping, and where it would wrap |
| RevocationList.VerifySignature | src/libaacs/aacs.c:139-167 | success exactly when the forty bytes behind the 24 bytes and eight for each counted entry are inside and sign all before them, and the count is below the guard |
| RevocationList.Lists.SaveRl | src/libaacs/aacs.c:169-191 | a list is kept only when it is newer, not empty and verified, whole or not at all; always when saves succeed |
| RevocationList.ListOfRecords | src/libaacs/aacs.c:169-213 | for every list of records what is kept is twelve bytes of the first record of type 16 and the whole first record of type 32 for drives or 33 for hosts, if it has an entry |
| RevocationList.Lists.UpdateRl | src/libaacs/aacs.c:193-213 | after a disc no kept version is older, and what changed is newer; kept lists stay signed with the version their signature covers; a newer, verified list is kept when saves succeed |
| RevocationList.NeverOlder | src/libaacs/aacs.c:193-213 | over every run of discs in any order the kept version never decreases and every kept list stays verified |
| RevocationList.AsNewAsAny | src/libaacs/aacs.c:193-213 | when every save succeeds the kept list is as new as every disc whose list is verified |
| RevocationList.Lists.GetRl | src/libaacs/aacs.c:1597-1644 | exactly the entries of the first signature block of the kept list, by its bytes, and nothing unless it is signed |
| RevocationList.CertIsRevoked | src/libaacs/mkb.c:228-262 | one exactly when some entry's interval holds the certificate, by the bytes of the record, minus one exactly when the list does not fit |
| RevocationList.Agree | src/libaacs/mkb.c:228-262 | the entries handed out and the search of the record agree on every certificate |

## Left out

- AES, SHA-1, SHA-256, ECDSA and random numbers: calls into libgcrypt; parameters with laws.
- Memory allocation, freeing and its failures, logging, operating-system files and devices.
- Failures of the cryptographic library calls: the source logs most of them and goes on.
- MediaKey.CalcMkDks: shift amounts of 32 to 63 in a record or a device key are undefined in C and are excluded; offsets beyond a record but inside the block are read as the code reads them, beyond the block is excluded; device numbers are 32-bit.
- MediaKey.CalcMkPks: a missing subset-difference record, where the code computes with a null pointer, is excluded, and so are entries that reach beyond the block.
- Mkb.DataSize: a typed record of length zero makes the loop of the source run forever and is excluded; `_record` stops there and is modelled with it.
- ScalarMul.MulPoint: a scalar of zero (the unsigned loop counter wraps) and a point at infinity (no inverse) are excluded; negative scalars are compiled out of the source.
- Fault.RightIffOrder: associativity of the affine group law is a hypothesis, here and wherever multiples are added.
- ScalarMul.GetAffine: the forms with only one coordinate.
- UnitKey.ParseUks: files in which the 64-byte stride runs past the end are excluded, because the source reads out of bounds there; files are larger than 2048 bytes, as the caller sees to.
- Session.Aacs.DecryptUnit: the block-wise loop of the cipher library is one assignment to the stretch it covers; aacs_decrypt_bus is its first part alone.
- Waterfall.CalcMk: a Media Key Block whose records lead the search beyond it is excluded, as with MediaKey.CalcMkDks and MediaKey.CalcMkPks; the block's version number is kept for a caller and not modelled.
- Auth.ReadWithCerts: the numbers that the host draws are parameters, and so is all that was sent to the drive before; the drive certificate only serves a message there.
- Waterfall.CalcUks: one opening of the drive, with one draw.  The code opens it a second time within the call only after a first opening that succeeded and from which an all-zero volume ID and an all-zero volume unique key came; the model then repeats the first.  The reading of data keys has an opening of its own.
- Issue.UseIssuedBlock: an end entry with the number zero, with which the search for devices runs on into the next record; Issue.SearchesAgree says that nothing else does.
- Waterfall.UseEntry: entries of the configuration are found by disc ID in a list; parsing the configuration is not modelled.
- Disc.Open: the content certificate, the drive certificate and the disc ID, which is a hash, are not computed; the disc ID, the two bus encryption flags, the AACS version and the name of the cache file for the read data key are parameters.
- Playback.PlayFromDisc: that honest host and drive share a point whose x-coordinate has at least sixteen bytes is a hypothesis.
- Auth.Mmc.constructor: mmc_open without the feature check and without the early reading of the drive certificate, which only serves a message.
- Auth.Mmc.ReadDataKeys: the write data key.
- RevocationList.VerifySignature: the check of a signature is a parameter of its own; in the source it is the one of certificates, under the same key.
- RevocationList.Lists.SaveRl: a save that stops half-way; file headers with version and length are a record.
- Copy control information (cci.c): whether the file of a unit can be read and says that the unit is unencrypted is a parameter.
- Content certificates, the reading of the Media Key Block from the drive, and the configuration grammar.
- API functions: those that only return a field or a random number; aacs_get_mk, which is CalcMk with an empty key; and aacs_get_pmsn, which hands out a serial number as aacs_get_vid does a volume ID, without the cache.
