# Armory: signing, QR encoding and their neighbours, in Dafny

The project models five parts of the Armory wallet and proves what they are for.

**Message signing (`jasvet.py`).** The modular inverse by the extended Euclidean algorithm, point addition and doubling
on y² = x³ + ax + b modulo a prime, the scalar multiplication that reads the bits of 3e and of e together, ECDSA
signing, verification and public-key recovery (SEC 1 version 2.0, sections 4.1.3, 4.1.4 and 4.1.6), Base58, the 24-bit
checksum, text formatting, and the two armoured block formats with their common reader. Which signatures are made,
accepted and recovered from is stated exactly, through the equation s·k ≡ hash + d·r (`Acceptance`), and carried through
messages, addresses and blocks to the secret's own bytes (`MessageAcceptance`, `SignedBlocks`). Addition is proved to be
the third crossing of a line with the curve, closed, commutative and with opposites. Associativity of the addition is a
hypothesis (`Associative`), as are a prime field and a generator of odd prime order (`Domain`) and, where any point may
turn up, that it generates them all (`Cyclic`). The module `SmallCurve` lists the points of a curve where all of them
hold, and signs on it. Hash functions are parameters, with the prefix and length put before a message, and so is the
random number of a signature.

**QR encoding (`qrcodenative.py`).** The field of 256 elements and its tables, polynomials over it, the generator
polynomial, error correction blocks, the bit buffer, padding, interleaving, the placement of bits in the symbol, the
masks with laws that determine them, and the way from items to modules and back. Bytes are eight booleans (`Octets.Octet`), so that no bit-vector reasoning is
needed. The list of blocks is a parameter: every theorem holds for any list of uneven blocks, and so for each row of the
program's table.

**Windows command lines (`subprocess_win.py`).** The writer `list2cmdline`, against a reader written from the five rules
its documentation gives.

**The ledger window (`armorymodels.py`).** The three pages a ledger view keeps of a paged history, with the history as a
function from page numbers to rows. **Daemon states (`SDM.py`).** The smoothing of observed daemon states over five
seconds, with the clock and everything the process can see as inputs of each call.

Where Python raises, the model returns `None` (or a constructor for it), and the theorems say exactly when. Loops of the
source are methods with invariants, proved equal to a function; what the source promises is proved of that function.
Integers are unbounded as in Python; division of integers is the flooring division of Python 2, used on operands for
which Dafny's division agrees with it.

## Where the code differs from what one would expect

- `sign` keeps r = x(kG) without reducing it modulo the order (`jasvet.py:395`). `SignedVerifies` shows that `verify`
  accepts the signature exactly when r is below the order, and `RecoverFindsKey` that recovery finds the key exactly when
  r is not a multiple of the order.
- A recovered key accepts the signature it was recovered from exactly when the case's x is r modulo the order
  (`RecoveredVerifies`). For the cases 2 and 3 it is not where r + n goes beyond the field: `WrappedCase`.
- The constructor's check that `order` cancels the point (`jasvet.py:240`) multiplies with the multiplier reduced modulo
  that same order, so it passes for every point: `OrderCheckIsVacuous`.
- `double` raises for a point with y = 0 although `__add__` gives infinity for it. So multiplication raises whenever a
  pass of its loop meets such a point: `MulExact` says exactly when, `MulRaisesByOrder` in terms of the point's order, and
  `FourRaises` gives an example.
- `b58decode` of `b58encode` returns the input exactly when it has a nonzero byte; otherwise it is two zero bytes longer:
  `Base58.EncodeDecode`.
- Where the displayed text of a message has a begin marker in it, the reader takes the armour from the message itself, so
  that all its signatures are read alike (`SignatureIgnored`) and the verified address does not depend on who signed
  (`SignerIgnored`). Reading back works for every signature exactly when there is no marker (`ClearsignedReadable`), and
  raises exactly when the message's own piece is no armour (`MarkerInMessageRaises`). `OtherSignatureRead` gives a message
  that is read as another signature.
- `getMoreData` upwards divides by zero when three pages are empty, and then leaves the pages moved and the ledger as it
  was (`armorymodels.py:504-505`). `RunRight` says exactly after which runs the ledger is right, and `StaleRun` gives one
  after which it is not. Its `previousOffset` upwards is right exactly when the two page lengths agree (`UpOffset`);
  `WrongOffset` gives a case where they do not.
- A reset fetches the history's first page anew only where it is the top or the current page. So after new transactions
  the ledger is right exactly unless the first page is at the bottom (`ResetFollows`).
- `centerAtHeight` takes a row's block to be two lower than the column of confirmations says (`armorymodels.py:571`
  against `ArmoryQt.py:3308`), so it finds the row closest to a block two above the one asked for (`ClosestIsTwoAbove`,
  `TwoAbove`).
- The daemon's history drops at most one entry a call, so that "not available" can be replaced long after five seconds.
  `Reported` says exactly when it is, from the times of the calls, and `LateOverride` gives a run where it happens a
  hundred seconds later.
- In `mapData` the step from column 6 to column 5 does not shift the later columns (`qrcodenative.py:226-228`). So column
  4 is visited twice and column 0 never, and free modules stay unset exactly in columns 0 and 6:
  `FilledExceptTwoColumns`. From column 4 rightwards every module gets the bit that the order of ISO/IEC 18004:2015,
  section 7.7, gives it (`AgreesWithStandard`); in columns 1 to 3 exactly those do before which both orders visit as many
  free modules (`SamePlaceAsStandard`).
- For the same reason a symbol loses bytes exactly when its free modules are fewer than the bits of its bytes and the free
  modules of columns 0 and 6 together (`BytesLost`). The bytes are meant to take up all free modules but for less than one
  byte, so a symbol with at least eight free modules in column 0 always loses some, and the smallest symbol with its four
  does too. The bytes lost are the last ones, which are correction bytes, and the items are still read back
  (`SymbolRoundTrip`, `FirstSymbolRoundTrip`).
- Building the generator polynomial raises from 256 correction bytes on, because degree 255 is the first with a zero
  coefficient, whose logarithm raises: `ErrorCorrectPolynomial`, `GeneratorZeros`.

## Model

| member | source | states |
|---|---|---|
| InverseMod.InverseMod | jasvet.py:204-213 | the loop ends with an inverse exactly when gcd(m, a) = 1, and then it is the unique one, in 1..m-1 for m ≥ 2 |
| InverseMod.InverseExists | jasvet.py:212 | the final assertion holds exactly for coprime arguments |
| InverseMod.InverseUnique | jasvet.py:213 | there is only one inverse in the range returned |
| Curve.SameX | jasvet.py:246-250 | two points of the curve with equal x are equal or opposite, so the equal-x branch is exhaustive |
| Curve.AddMeetsLine | jasvet.py:242-257 | the sum of two points that do not cancel is the third crossing, with multiplicity, of the curve with the chord or tangent, reflected |
| Curve.AddCloses | jasvet.py:242-257 | the sum of two points of the curve is a point of the curve; no assertion on the way fails |
| Curve.DoubleCloses | jasvet.py:289-299 | doubling gives a point of the curve, and raises exactly when 2y ≡ 0 |
| CurveGroup.AddNorm | jasvet.py:242-257 | addition only depends on y modulo p, so the unreduced negative point is harmless |
| CurveGroup.PlusCommutes | jasvet.py:242-257 | addition commutes |
| CurveGroup.OppositeCancels | jasvet.py:247-248 | a point and its opposite add to infinity |
| CurveGroup.CurveIsGroup | jasvet.py:242-257 | given associativity, the reduced points are an abelian group |
| ScalarMul.Multiply | jasvet.py:259-280 | the method, with its two loops, computes the function Mul, including every failed assertion |
| ScalarMul.MulLoopCollects | jasvet.py:274-279 | for every point: the loop raises exactly when a remaining pass doubles a point that is its own opposite; otherwise before bit i it holds (3e div 2i) - (e div 2i) copies of the point |
| ScalarMul.MulExact | jasvet.py:259-280 | for every point and every e: multiplication raises exactly for a negative multiplier or such a pass, and otherwise returns that many copies |
| ScalarMul.MulRaisesByOrder | jasvet.py:259-280 | for a point of order m it raises exactly for a negative multiplier, or when m is even and the copies before some bit are m/2 modulo m |
| ScalarMul.MulIsMultiple | jasvet.py:259-280 | so for a point cancelled by an odd number of copies it never raises and gives the e-fold sum, whether or not e was first reduced modulo the order |
| ScalarMul.MulAbortsAtTwoTorsion | jasvet.py:275 | at order two, and there without associativity: it raises exactly for e < 0 and e ≥ 2 |
| ScalarMul.MulAbortsAtOrderFour | jasvet.py:275 | at order four it raises exactly for e < 0 and e ≥ 3 |
| ScalarMul.OrderCheckIsVacuous | jasvet.py:240 | the constructor's order check passes for every point |
| SmallCurve.DomainExists | jasvet.py:323-335 | the domain hypotheses of the signature theorems hold together on a concrete curve with seven points |
| SmallCurve.SmallCyclic | jasvet.py:323-335 | its generator generates all its points |
| SmallCurve.ReducedSignature | jasvet.py:388-400 | on that curve a signature with r below the order is made and verifies |
| SmallCurve.RejectedSignature | jasvet.py:345-351 | a pair in range that is no signature is rejected |
| SmallCurve.UnreducedSignature | jasvet.py:395 | one with r above the order is made, does not verify, and recovery still gives the signer's key |
| SmallCurve.UnrecoverableSignature | jasvet.py:479 | one with r equal to the order is made, and recovery raises |
| SmallCurve.WrappedCase | jasvet.py:467-481 | a pair in range and a case whose x wraps around the field: the key recovered does not accept the pair |
| SmallCurve.SignedMessage | jasvet.py:512-528 | a message is signed there and read back under the signer's address |
| SmallCurve.FourRaises | jasvet.py:275 | multiplying the point (2, 1) of y² = x³ + x modulo 3 by four raises, although its double added to itself is infinity |
| SmallCurve.OrderFourExists | jasvet.py:259-280 | that point has order four in a group, so the theorems on even orders apply: times two succeeds, times three raises |
| Ecdsa.SignedVerifies | jasvet.py:337-351 | verification of a signature made by sign returns true exactly when r is below the order, for every hash and secret |
| Ecdsa.SignFacts | jasvet.py:388-400 | what signing leaves: r is the x of kG, 0 < s < n, and s·k ≡ hash + secret·r |
| Ecdsa.SqrtModCorrect | jasvet.py:433-434 | for a prime p ≡ 3 mod 4 the result squares back exactly when the argument is a square |
| Ecdsa.LiftYFindsPoint | jasvet.py:470-475 | the branch picks the root of the requested parity, which is the point's y |
| Ecdsa.RecoverFindsKey | jasvet.py:468-481 | with the parity of y(kG), recovery succeeds exactly when r is not 0 modulo n, and then gives secret·G |
| Acceptance.CountUnique | jasvet.py:402-408 | secrets with the same key are congruent modulo the order |
| Acceptance.SignExact | jasvet.py:388-400 | for every secret, hash and random number: signing raises exactly when k is 0 modulo the order, x(kG) is 0, or hash + d·x(kG) ≡ 0; otherwise r = x(kG), 0 < s < n and s·k ≡ hash + d·r |
| Acceptance.VerifyExact | jasvet.py:337-351 | for every pair: it is accepted exactly when it is in range and some 0 < k < n satisfies s·k ≡ hash + d·r with x(kG) ≡ r; verification raises exactly for pairs in range with hash + d·r ≡ 0 |
| Acceptance.RecoverExact | jasvet.py:467-481 | for every pair and case: recovery raises exactly when r is 0 modulo the order or no point has the case's x |
| Acceptance.RecoverGives | jasvet.py:467-481 | the key recovered is that of a secret d with s·k ≡ hash + d·r, where kG is the point with the case's x and parity |
| Acceptance.RecoveredVerifies | jasvet.py:337-351 | a key recovered from a pair in range accepts it exactly when the case's x is r modulo the order |
| Acceptance.VerifiedRecovered | jasvet.py:467-481 | from every pair that a key accepts some case recovers that key |
| MessageSigning.VersionOfAddress | jasvet.py:521 | the version number read out of an address is the one it was made with |
| MessageSigning.RightCaseVerifies | jasvet.py:444-484 | the signature bytes with the right recovery case speak for the signer's own address |
| MessageSigning.SignMessageBitcoin | jasvet.py:512-528 | the loop returns the signer's address with the bytes of the first case that verification maps to it, and raises exactly when no case does |
| MessageSigning.SigningSucceeds | jasvet.py:486-528 | whenever signing passes its self-check, one of the four cases is found, so the final exception is never raised |
| MessageAcceptance.SecretNumber | jasvet.py:487-493 | the number of a secret is that of its first 32 bytes, most significant first, and no other |
| MessageAcceptance.SignMessageExact | jasvet.py:486-509 | signing a message succeeds exactly for secrets of 32 or 33 bytes whose key has coordinates below the order and a k with 0 < x(kG) < n and hash + d·x(kG) ≢ 0; the address is that of d·G, compressed for 33 bytes, and the pair satisfies the equation with d |
| MessageAcceptance.VerifyMessageExact | jasvet.py:444-484 | for all bytes: an address is answered exactly for 65 bytes with a first byte from 27 to 34 and a secret with a key in range that the equation attributes the pair to, and it is that secret's address |
| MessageAcceptance.AttributionVerifies | jasvet.py:337-351 | the key of that secret accepts a pair in range exactly when the case's x is r modulo the order |
| MessageAcceptance.AcceptedIsAnswered | jasvet.py:444-484 | for a field at most twice the order: every pair that a key accepts has bytes for which the verifier answers with the key's address |
| MessageAcceptance.SerializeReads | jasvet.py:353-364 | both forms of a key are read back as its coordinates by the rules of SEC 1 version 2.0, section 2.3.4 |
| MessageAcceptance.AddressReads | jasvet.py:53-57 | an address is decoded to the version byte, the hash and the checksum of both, exactly unless all are zero |
| MessageAcceptance.HashReads | jasvet.py:59-61 | the hash read out of an address is the one it was made of, and reading raises exactly when all its bytes are zero |
| Base58.RebaseRoundTrip | jasvet.py:75-115 | positional conversion between any two bases keeps the value, and is undone exactly for inputs that are not all zero |
| Base58.B58Encode | jasvet.py:75-92 | the loops compute the function Encode |
| Base58.B58Decode | jasvet.py:94-115 | the loops compute the function Decode, with its length check and the exception for a foreign character |
| Base58.EncodeDecode | jasvet.py:75-115 | decoding an encoding gives the bytes back exactly when one of them is nonzero; otherwise two more zero bytes |
| Base58.DecodeEncode | jasvet.py:75-115 | encoding a decoded string gives the string back exactly when it is not all '1' |
| Base58.AlphabetIs | jasvet.py:72 | the characters are the digits and letters without 0, O, I and l |
| Base58.AlphabetAscends | jasvet.py:72 | larger digits have larger characters |
| Base58.DecodeLength | jasvet.py:94-115 | asking for a length changes the result only where the length is another |
| Crc24.ComputeChecksum | jasvet.py:555-569 | the nested loop computes the function Checksum, low byte first |
| Crc24.RegisterIsRun | jasvet.py:555-569 | the byte-wise register is the bit-serial division register over the message bits |
| Crc24.ChecksumIsRemainder | jasvet.py:555-569 | the checksum, low byte first, is the remainder of long division by 0x1864CFB of the message's bits and 24 zeros, with 0xB704CE added to the highest coefficients |
| Crc24.RunInjective | jasvet.py:560-566 | feeding the same bits is injective in the 24-bit register |
| Crc24.BurstDetected | jasvet.py:555-569 | two different messages of equal length that differ only within 24 consecutive bits, such as a single byte, have different checksums |
| FormatText.FormatTextLoop | jasvet.py:530-552 | the loops compute the function Format |
| FormatText.FormattedLine | jasvet.py:530-552 | each line of a formatted text is the original one without the blanks, tabs and carriage returns at its end, and nothing else is taken off; for display alone "- " comes before a leading dash |
| FormatText.CleanFormats | jasvet.py:530-552 | text of lines without trailing blanks is its own signed form, and its own displayed form where no line starts with a dash |
| FormatText.FormatStable | jasvet.py:530-552 | formatting for signing fixes every formatted text, displayed or signed |
| Base64.EncodeDecode | jasvet.py:580-581 | base64 decoding undoes encoding |
| Base64.LetterTable | jasvet.py:580-581 | the letters are those of RFC 4648, table 1 |
| Base64.GroupNumber | jasvet.py:580-581 | four letters are the base-64 digits of the number that three bytes are in base 256, and padding stands for missing bytes |
| Base64.EncodeShape | jasvet.py:580-581 | padding never starts a group of four, so no 64-character line begins with '=' |
| Base64.DecodeSymbols | jasvet.py:596-601 | the decoder ignores every character outside the alphabet |
| ArmourProofs.ChunksOf | jasvet.py:571-572 | the lines joined are the encoding again, none is empty and none begins with '=' |
| ArmourProofs.ChunkLengths | jasvet.py:571-572 | every line but the last has 64 characters |
| ArmourProofs.PrintedLines | jasvet.py:574-585 | both block formats line by line, with their markers |
| ArmourProofs.Base64ArmourReads | jasvet.py:590-605 | an armour of any bytes with any checksum line is read exactly when that line is the bytes' checksum, and then as the first 65 bytes and the rest |
| ArmourProofs.Base64BlockReads | jasvet.py:586-605 | the reader returns the signature and the formatted message of every base64 block of a 65-byte signature, and the checksum test passes |
| ArmourProofs.ClearsignedArmourReads | jasvet.py:606-622 | a clearsigned block without a begin marker in its text and with any checksum line is read exactly when that line is the signature's checksum |
| ArmourProofs.ClearsignedBlockReads | jasvet.py:606-643 | for a displayed text without a begin marker the reader returns the signature and exactly that text, which is also the text verification formats it to |
| ArmourProofs.ChangedBlockRaises | jasvet.py:600-622 | blocks of both formats whose bytes were changed within 24 consecutive bits are refused |
| ArmourProofs.OtherNameRaises | jasvet.py:623-624 | an armour of any other name is refused |
| ArmourMarkers.MarkedBlockReads | jasvet.py:606-625 | with a begin marker in the displayed text the reader returns what the piece of the message behind the first marker spells, and the text up to a repeated header |
| ArmourMarkers.SignatureIgnored | jasvet.py:606-625 | then any two signatures of the message are read alike |
| ArmourMarkers.ReadArmourExact | jasvet.py:618-622 | for every text: the reader accepts it exactly when between its first dashes and the next there is one checksum mark at the start of a line, with base64 of some bytes before it and of their checksum behind it |
| ArmourMarkers.MarkerInMessageRaises | jasvet.py:586-625 | then reading raises exactly when that piece does not hold bytes with their checksum in this way, as when it has no run of five dashes |
| ArmourMarkers.ClearsignedReadable | jasvet.py:586-643 | for every message: the blocks of all 65-byte signatures read back exactly when the displayed text has no begin marker |
| ArmourMarkers.OtherSignatureRead | jasvet.py:618-622 | a concrete message every signature of which is read as the one it quotes |
| SignedBlocks.FirstCaseLeast | jasvet.py:515-524 | the case chosen is the first whose bytes verify |
| SignedBlocks.ClearsignedVerifies | jasvet.py:635-643 | there is a clearsigned block exactly when the secret can sign, and for every message without a begin marker it is read and verified to the address of the secret's key |
| SignedBlocks.Base64Verifies | jasvet.py:645-647 | the same for the base64 block and every message of bytes |
| SignedBlocks.ForeignBlockVerifies | jasvet.py:629-633 | for a base64 block of any signature and text, the text is verified in its formatted form |
| SignedBlocks.SignerIgnored | jasvet.py:606-634 | with a begin marker in the message the verified address is the same whoever signed |
| CommandLine.AppendArgument | subprocess_win.py:623-648 | one argument's loop with its backslash buffer appends the function Escaped and the closing quote |
| CommandLine.List2Cmdline | subprocess_win.py:583-650 | the loop computes the function CommandLine |
| CommandLine.QuotedExactly | subprocess_win.py:622-624 | an argument is put in quotation marks exactly when it is empty or has a space or tab, and is written unchanged exactly when it is not empty and has no space, tab or quotation mark |
| CommandLine.CommandLineRoundTrip | subprocess_win.py:583-650 | reading the command line by the documented rules gives the list of arguments back, for every list of strings |
| LedgerWindow.LedgerModel.GetMoreData | armorymodels.py:453-509 | a load moves the window by one page, or changes nothing when there is no page, and returns the ratio or raises |
| LedgerWindow.LedgerModel.ResetModel | armorymodels.py:511-555 | a reset pulls the pages that are empty or numbered 0 and rebuilds the ledger |
| LedgerWindow.LedgerModel.CenterAtHeight | armorymodels.py:557-577 | centring moves the pages to the given one and returns the last closest row |
| LedgerWindow.FindHeight | armorymodels.py:566-577 | the search returns the last row among those at the least distance it computes, within 2^32 |
| LedgerWindow.ClosestIsTwoAbove | armorymodels.py:570-575 | for rows with confirmations counted from their blocks, that row is the last one closest to a block two above the one asked for |
| LedgerWindow.TwoAbove | armorymodels.py:571 | asked for block 10 with rows for blocks 12 and 10, it is the row of block 12 |
| LedgerWindow.ResetSettles | armorymodels.py:511-555 | after a reset the ledger is the concatenation of three consecutive history pages, absent ones empty |
| LedgerWindow.ResetFollows | armorymodels.py:511-552 | after a change of the first page a reset makes the ledger right exactly unless the first page is the bottom page and holds other rows |
| LedgerWindow.FreshIsHard | armorymodels.py:515-524 | resetting a fresh object is resetting it hard |
| LedgerWindow.RunKeeps | armorymodels.py:453-577 | every run of operations keeps the page numbers consecutive, and each page unfetched or the history's own |
| LedgerWindow.RunRight | armorymodels.py:313-577 | every run from the constructor: after the last operation that found its page the ledger is right exactly unless a later load raised with rows on the page it dropped; if none found one, exactly when pages and handed-over table are empty |
| LedgerWindow.RunAfterRepair | armorymodels.py:453-577 | the same from every consistent window |
| LedgerWindow.RunRecovers | armorymodels.py:453-577 | a reset, a centring or a load that finds its page makes the ledger right whatever happened before |
| LedgerWindow.StaleRun | armorymodels.py:504-508 | a history and a run after which the ledger shows a row of none of its pages |
| LedgerWindow.DownThenUp | armorymodels.py:453-508 | a load down and a load up that finds its page restore pages and ledger |
| LedgerWindow.DownOffset | armorymodels.py:465-478 | on a load down previousOffset takes every row that stays to its new place |
| LedgerWindow.UpOffset | armorymodels.py:493-503 | the rows of the two pages that stay are the same at their old and new places, and on a load up previousOffset takes each old place to the new one exactly when the new page is as long as the old top page, or no row stays |
| LedgerWindow.WrongOffset | armorymodels.py:493 | a history and a load up after which it does not |
| LedgerWindow.RatioLocatesEdge | armorymodels.py:480-505 | the ratio is the place of the old edge in the new ledger, and raises exactly on a load up into three empty pages |
| DaemonState.DaemonManager.GetSDMState | SDM.py:743-771 | one call appends the observation, drops at most one, and returns the smoothed state |
| DaemonState.HistoryIs | SDM.py:753-760 | in every run, whatever the clock, the two buffers are the observations and times after a number of dropped ones that the times alone determine |
| DaemonState.HistoryReachesBack | SDM.py:753-760 | with a clock that does not run backwards, only observations more than five seconds old are dropped |
| DaemonState.BurstDrops | SDM.py:755-760 | after n calls at one time and m at another, min(m, n - 1) observations are dropped if more than five seconds lie between, and none otherwise |
| DaemonState.NeverNotAvailableAfterInitializing | SDM.py:743-771 | within five seconds of having observed "initializing" no call returns "not available" |
| DaemonState.Reported | SDM.py:767-771 | exactly what each call of every run returns: the observed state, but "initializing" for "not available" when an observation of it is among those not dropped |
| DaemonState.LateOverride | SDM.py:755-769 | calls at times 0, 0, 0 and 100 of which the last returns "initializing" though only the second observed it |
| DaemonState.ObservedExactly | SDM.py:774-836 | each of the thirteen states is observed exactly under a condition of its own on what is seen, with all lock or database words but one for the two recognised crashes |
| DaemonState.ReturnedExactly | SDM.py:743-836 | for every call of every run and every state: it is returned exactly under its condition on what is seen and on the sights and times of the run |
| DaemonState.SlowerIsNotReady | SDM.py:824-836 | an older last block or a higher known rate never turns "synchronizing" into "ready" |
| DaemonState.ReadyIsSticky | SDM.py:774-836 | once ready, always ready, as long as the daemon is found healthy |
| Gf256.BuildTables | qrcodenative.py:610-621 | the exponent table holds the powers of 2 in the field, the logarithm table their inverses on every nonzero byte |
| Gf256.Recurrence | qrcodenative.py:617-618 | the table's recurrence is multiplication by 2 modulo 0x11D |
| Gf256.AlphaInjective | qrcodenative.py:610-621 | the first 255 powers are different |
| Gf256.IsPower | qrcodenative.py:620-621 | every nonzero byte is a power, so every logarithm is defined |
| Gf256.GexpIsAlpha | qrcodenative.py:602-608 | gexp of any integer is the power of that exponent modulo 255 |
| Gf256.TableProduct | qrcodenative.py:649 | gexp of a sum of logarithms is the product modulo 0x11D |
| Polynomial.Make | qrcodenative.py:625-637 | the constructor strips leading zeros and shifts, and raises for an empty list |
| Polynomial.Multiply | qrcodenative.py:644-651 | the nested loop computes the polynomial product, and raises exactly when a coefficient is zero or nothing is left |
| Polynomial.Remainder | qrcodenative.py:652-668 | the recursion ends and computes the function Mod |
| Polynomial.ModDefined | qrcodenative.py:652-668 | the remainder is shorter than the divisor, and is defined exactly when no zero coefficient is met |
| Evaluation.EvalProduct | qrcodenative.py:644-651 | the value of a product is the product of the values |
| Evaluation.ModKeeps | qrcodenative.py:652-668 | a remainder has the value of the dividend at every root of the divisor |
| ReedSolomon.GeneratorRoots | qrcodenative.py:471-476 | the generator of degree n vanishes at the first n powers |
| ReedSolomon.NeighbourCoefficients | qrcodenative.py:471-476 | its coefficients obey the relation of Gaussian binomials |
| ReedSolomon.GeneratorZeros | qrcodenative.py:471-476 | up to degree 255, only degree 255 has a zero coefficient |
| ReedSolomon.ErrorCorrectPolynomial | qrcodenative.py:471-476 | the loop builds the generator for up to 255 correction bytes and raises for more |
| ReedSolomon.CorrectBlock | qrcodenative.py:333-343 | the block's steps, with the right-aligned copy, compute the function Correction |
| ReedSolomon.BlockIsCodeword | qrcodenative.py:319-343 | data followed by its correction bytes vanishes at the first ecCount powers, and exactly which blocks raise |
| CodeDistance.CodewordsFarApart | qrcodenative.py:319-343 | two different blocks of up to 255 bytes differ in more places than there are correction bytes |
| CodeDistance.DistanceIsReached | qrcodenative.py:471-476 | that bound is met: the generator has just one nonzero place more |
| CodeDistance.UniqueRepair | qrcodenative.py:319-343 | a damaged block is within half the correction bytes of at most one codeword |
| CodeDistance.CorrectionUnique | qrcodenative.py:337-343 | the correction bytes are the only ones that complete the data to a codeword |
| BitBuffer.QRBitBuffer.PutBit | qrcodenative.py:975-981 | appends one bit to the content |
| BitBuffer.QRBitBuffer.Put | qrcodenative.py:970-972 | appends the low bits of a number, most significant first |
| BitBuffer.FieldNumber | qrcodenative.py:970-972 | a field of a given width holds the number modulo the width's range |
| QrData.WriteItems | qrcodenative.py:269-273 | writes mode, length and bytes of every item, and raises for a type number above 40 |
| QrData.ItemHeader | qrcodenative.py:269-273 | an item starts with 0100, its length has eight bits up to type 9 and sixteen above, and only types above 40 raise |
| QrData.DataRaises | qrcodenative.py:269-284 | the data raises exactly for a type above 40, or when the bits of headers and bytes exceed the capacity |
| QrData.EndMessage | qrcodenative.py:287-293 | the end code where it fits, then light bits to a whole byte |
| QrData.PadMessage | qrcodenative.py:295-304 | padding bytes 0xEC and 0x11 in turn, up to the capacity |
| QrData.PadByte | qrcodenative.py:295-304 | the padding bytes are 11101100 and 00010001 in turn |
| QrData.PaddedLayout | qrcodenative.py:286-304 | zeros up to the first whole byte after the end code or as much of it as fits, then padding bytes up to the capacity |
| QrData.ReadWritten | qrcodenative.py:262-306 | a reader of mode, length and bytes returns the items exactly when every length fits its field |
| QrData.DataReadsBack | qrcodenative.py:262-306 | without overflow the buffer is exactly eight bits per data byte, and reads back as the items under that same condition |
| Interleave.WriteColumns | qrcodenative.py:352-362 | the nested loop writes the columns one after the other from the index on, and raises exactly when they do not fit |
| Interleave.SlotOrder | qrcodenative.py:352-362 | slots are in the order of the bytes' places in their blocks, then of the blocks |
| Interleave.SlotInjective | qrcodenative.py:352-362 | no two bytes go to the same slot |
| Interleave.InterleaveDeinterleave | qrcodenative.py:345-364 | taking the bytes apart by the block sizes gives every block back, for uneven blocks |
| Interleave.DeinterleaveInterleave | qrcodenative.py:345-364 | every slot is filled: interleaving what was taken apart gives the same bytes |
| QrBytes.CreateBytes | qrcodenative.py:308-364 | for any list of blocks the method computes the function Codewords, raises where it is undefined, and fills the output exactly |
| QrBytes.CreateData | qrcodenative.py:262-306 | the method computes the function SymbolBytes, including where it raises |
| QrBytes.SymbolReadsBack | qrcodenative.py:262-364 | taken apart again, every block is a codeword, and the data blocks read back as the items exactly when every length fits |
| QrBytes.SymbolRaises | qrcodenative.py:262-364 | encoding raises exactly for a type number above 40, more bits than the data bytes hold, a block that is empty or has too many correction bytes, or one with more data bytes than bytes in all |
| Masks.LawsDetermine | qrcodenative.py:460-470 | any masks that obey the laws are the program's: a chessboard, single rows, every third column, every third diagonal, a chessboard of blocks, and how the last three patterns come out of these |
| Masks.MasksAreLawful | qrcodenative.py:460-470 | the program's masks obey those laws |
| Placement.MapData | qrcodenative.py:219-258 | the k-th free module in visiting order gets bit 7-(k mod 8) of byte k div 8, light past the end, under the mask; all others stay as they were; a bad mask pattern raises exactly when some visited module is free, and then nothing changes |
| Placement.PathAt | qrcodenative.py:226-258 | the visits one by one: pairs of columns up and down in turn, the right module of each row first |
| Placement.Visited | qrcodenative.py:226-228 | in a symbol of odd size exactly columns 0 and 6 are never visited |
| Placement.VisitedCount | qrcodenative.py:226-258 | the visits fill as many modules as are free outside columns 0 and 6 |
| Placement.FirstSymbolCount | qrcodenative.py:84-217 | in a symbol of type 1 that is 204, with four more free in column 0 |
| Placement.FreeOrderDistinct | qrcodenative.py:232-234 | no module is filled twice, although column 4 is visited twice |
| Placement.FilledExceptTwoColumns | qrcodenative.py:219-258 | set modules never change, and a module stays unset exactly when it was free in column 0 or 6 |
| Placement.StandardPathAt | qrcodenative.py:226-258 | the standard's order of ISO/IEC 18004:2015, section 7.7, in the same way with its own columns |
| Placement.ModulesReadBack | qrcodenative.py:219-258 | to any reader whose masks obey the laws, the modules in visiting order are the bytes' bits, then light |
| Placement.PlaceIsCount | qrcodenative.py:226-258 | a free module's place in the order is the number of free modules visited before its first visit |
| Placement.AgreesWithStandard | qrcodenative.py:226-228 | from column 4 rightwards each module has the same place in the order as when all later columns are shifted |
| Placement.SamePlaceAsStandard | qrcodenative.py:226-228 | a free module has the same place in the standard's order exactly when it is outside columns 0 and 6 and both orders visit as many free modules before it |
| QrSymbol.MakeSymbol | qrcodenative.py:80-82 | encoding and placing together, with exactly when they raise |
| QrSymbol.BytesReadBack | qrcodenative.py:219-258 | from the modules as many of the bytes are read back as the visited free modules hold |
| QrSymbol.SymbolRoundTrip | qrcodenative.py:219-364 | from items to modules and back, for any reader whose masks obey the laws: as many of the bytes survive as the visited free modules hold, and where that is enough for the data bytes the items are read back exactly when every length fits its field |
| QrSymbol.BytesLost | qrcodenative.py:219-258 | bytes are lost exactly when the free modules are fewer than their bits and the free modules of columns 0 and 6 together |
| QrSymbol.FirstSymbolRoundTrip | qrcodenative.py:219-364 | a symbol of type 1 with its 26 bytes keeps exactly the first 25, and its items are read back exactly when every length is below 256 |

## Left out

- Windows, delegates, dialogs and colours of the user interface, and `armoryd.py`'s remote calls and transactions.
- SHA-256, RIPEMD-160, random numbers and key storage: hashes are parameters, the random number is an argument. The prefix and length that a message gets before it is hashed belong to the hash.
- Associativity of point addition and the order of the secp256k1 generator, which are hypotheses of the group theorems.
- Conformance with RFC 2440: the program signs the escaped text and writes the checksum low byte first, so only its own consistency is stated.
- The standard library's base64 module, which is modelled as the standard encoder and a decoder that ignores foreign characters.
- Signature numbers of more than 32 bytes, whose hexadecimal form would be longer; the fields of secp256k1 stay below that.
- ArmourProofs.Base64BlockReads: asks that the displayed text is made of single-byte characters, because the block is a byte string.
- The mask penalty score, the fixed patterns, the format and version information, and the static block and position tables of QR codes.
- Block lists with negative counts, and type numbers outside the block table: the list of blocks is a parameter.
- An upper bound on the size of the daemon's state buffer: each call adds one entry and removes at most one, so there is none.
- `Popen` and its pipes, `qt4reactor.py`, `guardian.py`, `dynamicImport.py`, `announcefetch.py` and the torrent client: processes, network and files.
