# Verified models of the secure-boot and module tool chain

Dafny models of the parts of this repository that everything else trusts, with proofs about all
inputs, all runs and all reachable states. `dafny verify dfyconfig.toml` checks the whole project.

- **Ed25519, SHA-512 and Poly1305** (the vendored Monocypher under the signed boot loader). Limb
  arithmetic is modelled with the C widths, and value and absence of overflow are proved together:
  `Limbs`, `WordBits`, `ScalarModL` (Barrett reduction mod L), `Field25519` (arithmetic mod 2^255-19),
  `SlidingWindow` and `SignatureCheck` (signed digits and the merged ladder over any abelian group),
  `Sha512` and `Sha512Stream` (rolling schedule, buffered hashing), `Ed25519` (what is signed checks),
  `Poly1305`.
- **The A/B module installer.** `InstallCatalog` is the record codec and recovery from any bytes,
  `InstallSteps` the operations as plans of persistent writes, `InstallSafety` the invariants over
  every run with power lost after any write, `InstallProgress` exactly when operations succeed and
  what they record, `InstallWitness` runs that reach the interesting states, `InstallRevocation` what
  holds on any flash contents, `ModuleInstaller` the classes themselves, proved to follow the plans,
  and `InstallEnvironment` the link to the package format.
- **The bytecode assembler and machine.** `BytecodeProgram`, `BytecodeVm` and `BytecodeAssembler`:
  assembled bytes mean what the source means, and the sandbox limits hold for any bytes.
- **Formats and framing.** `Frames` and `UpdateClient` (the UART reader and the update streamer),
  `ModulePackage` and `NativePayload` (canonical package formats), `Crc32` (the boot loader's
  checksum and image check).

The curve, and the hashes, checksums and signatures of packages, records and frames, enter as
parameters. Of them only sizes, the agreement of signing and verifying, and the group laws are
assumed, as preconditions. Optional values and lists of message parts are in `Common`.

Where the code does not do what its comments or neighbours suggest:

- The comment at `FE_CARRY` in monocypher.c admits |t0| < 2^63. `Field25519.StatedBoundsTooWide` is an
  input within the comment's bounds that overflows, and `Field25519.CarryRoom` gives the exact
  condition, t0 < 2^63 - 2^25. No modelled caller reaches such an input: the columns of
  `fe_mul` are proved to be at most 2^62, and the pieces of `fe_frombytes_mask` are below 2^32.
- `remove_candidate` erases whatever the newest candidate slot is. After an activation that is the
  confirmed slot, so the confirmed package is lost. `InstallSafety.RemoveCandidateExactly` gives the
  exact condition, `InstallWitness.UpgradeLoses` the runs from empty flash that end in the other case,
  and `InstallWitness.LostPackage` one of them in full.
- The assembler accepts system calls with up to 255 arguments, the machine loads at most four;
  `BytecodeAssembler.AssemblerCorrect` states exactly when assembled bytes load, and
  `BytecodeAssembler.FiveArguments` is a text whose bytes do not.
- The size limit on native payloads is stated without the padding, yet never refuses what the other
  limits admit: `NativePayload.BuiltExactly`.

## Model

| member | source | states |
|---|---|---|
| `Limbs.LoadWordsValue` | firmware/exp019_signed_bootloader/src/monocypher.c:100-131 | loading a little-endian buffer into 32-bit words keeps the number it denotes |
| `Limbs.StoreWordsValue` | firmware/exp019_signed_bootloader/src/monocypher.c:114-137 | storing words into a buffer keeps the number they denote |
| `Limbs.MulAddRow` | firmware/exp019_signed_bootloader/src/monocypher.c:1608-1613 | one row of a schoolbook product, in place: the addressed limbs plus the carry gain exactly k times the multiplicand, the 64-bit carry never overflows, and no other limb changes |
| `ScalarModL.Multiply` | firmware/exp019_signed_bootloader/src/monocypher.c:1604-1616 | p = a*b + p for the whole 16-limb array, with no 64-bit overflow |
| `ScalarModL.IsAboveL` | firmware/exp019_signed_bootloader/src/monocypher.c:1618-1628 | the two's-complement carry chain is 1 exactly if the scalar is at least L |
| `ScalarModL.RemoveL` | firmware/exp019_signed_bootloader/src/monocypher.c:1630-1643 | one conditional subtraction of L, also when source and destination are the same array |
| `ScalarModL.BarrettQuotient` | firmware/exp019_signed_bootloader/src/monocypher.c:1648-1663 | the estimated quotient of any 512-bit number leaves a remainder in [0, 2L): it is off by at most one |
| `ScalarModL.EstimateQuotient` | firmware/exp019_signed_bootloader/src/monocypher.c:1648-1663 | the in-place product with the Barrett constant yields that quotient in the top limbs |
| `ScalarModL.MulLowByL` | firmware/exp019_signed_bootloader/src/monocypher.c:1664-1676 | the truncated product keeps the low 256 bits of quotient times L |
| `ScalarModL.ReducedLow` | firmware/exp019_signed_bootloader/src/monocypher.c:1664-1683 | the low 256 bits alone determine the remainder, because it is below 2L |
| `ScalarModL.ModL` | firmware/exp019_signed_bootloader/src/monocypher.c:1645-1688 | for every 512-bit x the result is exactly x mod L |
| `ScalarModL.EddsaReduce` | firmware/exp019_signed_bootloader/src/monocypher.c:1690-1696 | any 64 bytes are reduced to their value mod L |
| `ScalarModL.EddsaMulAdd` | firmware/exp019_signed_bootloader/src/monocypher.c:1698-1711 | the result is (a*b + c) mod L for all 32-byte inputs |
| `SlidingWindow.HighBitsZero` | firmware/exp019_signed_bootloader/src/monocypher.c:1951-1964 | a scalar below 2^253 has no bits from 253 on, so that starting at bit 252 loses nothing |
| `SlidingWindow.WindowValue` | firmware/exp019_signed_bootloader/src/monocypher.c:1977-1982 | a window taken at a bit change carries exactly the part of the scalar between its ends |
| `SlidingWindow.WindowDigit` | firmware/exp019_signed_bootloader/src/monocypher.c:1983-1990 | the lowest set bit is found by the three masks, and the remaining digit is odd and below 2^(width-1) |
| `SlidingWindow.SlideCtx.Init` | firmware/exp019_signed_bootloader/src/monocypher.c:1949-1968 | the context starts with nothing recoded, wherever the highest set bit is |
| `SlidingWindow.SlideCtx.Recode` | firmware/exp019_signed_bootloader/src/monocypher.c:1972-1992 | a check at the current bit keeps the invariant between the digits still to come and the scalar bits left |
| `SlidingWindow.SlideCtx.Step` | firmware/exp019_signed_bootloader/src/monocypher.c:1970-1994 | each step emits a digit such that digits weighted by powers of two sum to the scalar; every nonzero digit is odd and in range for its table |
| `SignatureCheck.BuildTable` | firmware/exp019_signed_bootloader/src/monocypher.c:2020-2030 | the look-up table holds the odd multiples of -A |
| `SignatureCheck.LadderRound` | firmware/exp019_signed_bootloader/src/monocypher.c:2039-2050 | one round doubles the sum and adds both digits' multiples |
| `SignatureCheck.Ladder` | firmware/exp019_signed_bootloader/src/monocypher.c:2032-2050 | in any abelian group the merged ladder yields [s]B + [h](-A) for all scalars below 2^253 |
| `SignatureCheck.EightTimes` | firmware/exp019_signed_bootloader/src/monocypher.c:2052-2064 | three doublings are multiplication by eight |
| `SignatureCheck.CheckEquation` | firmware/exp019_signed_bootloader/src/monocypher.c:2000-2065 | the check returns 0 exactly if both points decode, S < L, and [8]([s]B - [h]A - R) is the neutral element |
| `Field25519.FeCarry` | firmware/exp019_signed_bootloader/src/monocypher.c:1077-1152 | the carry chain changes the value by a multiple of 2^255-19 only and leaves limbs within 1.1*2^25 and 1.1*2^24, with every step in 64 bits |
| `Field25519.CarryRoom` | firmware/exp019_signed_bootloader/src/monocypher.c:1078-1152 | within the bounds that the comment states, every operation of the chain stays within 64 bits if and only if t0 < 2^63 - 2^25 |
| `Field25519.StatedBoundsTooWide` | firmware/exp019_signed_bootloader/src/monocypher.c:1078-1139 | an input within the stated bounds, t0 = 2^63 - 1, whose first addition overflows |
| `Field25519.RowValue` | firmware/exp019_signed_bootloader/src/monocypher.c:1265-1292 | one limb times the rotated and 19-folded multiplicand is congruent to the shifted product |
| `Field25519.ProductColumn` | firmware/exp019_signed_bootloader/src/monocypher.c:1265-1302 | every column is the exact sum within 2^62; each factor fits 32 bits, each product and each partial sum 64 bits |
| `Field25519.DotBound` | firmware/exp019_signed_bootloader/src/monocypher.c:1269-1302 | bounded factors give products and left-to-right partial sums that all fit 64 bits |
| `Field25519.SumProducts` | firmware/exp019_signed_bootloader/src/monocypher.c:1273-1292 | the column summed up step by step in typed 32-bit and 64-bit variables |
| `Field25519.FeMul` | firmware/exp019_signed_bootloader/src/monocypher.c:1250-1305 | for all limbs within 1.65*2^26 and 1.65*2^25 the result is congruent to the product, its limbs are reduced, and in all ten columns factors fit 32 bits, products and partial sums 64 bits |
| `Field25519.FeAdd` | firmware/exp019_signed_bootloader/src/monocypher.c:976 | the sum of two reduced elements is exact and again a legal factor |
| `Field25519.FeSub` | firmware/exp019_signed_bootloader/src/monocypher.c:977 | the difference of two reduced elements is exact and again a legal factor |
| `Field25519.PiecesValue` | firmware/exp019_signed_bootloader/src/monocypher.c:1162-1172 | the ten loaded pieces denote the 255-bit (or 254-bit) number in the bytes |
| `Field25519.FeFromBytesMask` | firmware/exp019_signed_bootloader/src/monocypher.c:1154-1179 | decoding any 32 bytes gives an element congruent to their value with the masked bits dropped, with reduced limbs |
| `Field25519.TopQuotient` | firmware/exp019_signed_bootloader/src/monocypher.c:1196-1210 | the carry-only pass computes the quotient by 2^255 |
| `Field25519.Normalize` | firmware/exp019_signed_bootloader/src/monocypher.c:1211-1216 | the second pass leaves the unique limbs of the reduced value |
| `Field25519.FeToBytes` | firmware/exp019_signed_bootloader/src/monocypher.c:1182-1228 | encoding gives the canonical 32 bytes of the value mod 2^255-19, for negative limbs too |
| `Field25519.PackWords` | firmware/exp019_signed_bootloader/src/monocypher.c:1218-1225 | the eight words, each computed with the shifts and the | of its line, hold exactly the bits of the limbs |
| `Field25519.Word1` | firmware/exp019_signed_bootloader/src/monocypher.c:1219 | u >> 6 | v << 19 on 32-bit words is the quotient of one limb plus the low bits of the next; the other seven words likewise |
| `WordBits.DownIsShift` | firmware/exp019_signed_bootloader/src/monocypher.c:1218-1225 | >> by each nonzero distance used is that many halvings |
| `WordBits.ShiftedJoin` | firmware/exp019_signed_bootloader/src/monocypher.c:1218-1225 | x >> j | y << k is the quotient of x plus the low bits of y scaled up, when what is left of x fits below |
| `WordBits.DisjointNum` | firmware/exp019_signed_bootloader/src/monocypher.c:1218-1225 | on words that share no bits | is addition |
| `Field25519.DecodeEncode` | firmware/exp019_signed_bootloader/src/monocypher.c:1154-1228 | encoding after decoding is reduction of the 255-bit value mod 2^255-19, and the identity on canonical encodings |
| `Field25519.MulBytes` | firmware/exp019_signed_bootloader/src/monocypher.c:1154-1305 | decode, multiply, encode computes the product mod 2^255-19 of any two byte strings |
| `Sha512.StepIsRound` | firmware/exp019_signed_bootloader/src/monocypher-ed25519.c:152-156 | the body of the round loop is the round function of section 6.4.2 of FIPS 180-4 |
| `Sha512.Advance` | firmware/exp019_signed_bootloader/src/monocypher-ed25519.c:162-164 | the in-place update of a word turns the 16-word window to the next words of the 80-word schedule |
| `Sha512.RunRounds` | firmware/exp019_signed_bootloader/src/monocypher-ed25519.c:151-171 | five turns over sixteen words run the eighty rounds |
| `Sha512.Compress` | firmware/exp019_signed_bootloader/src/monocypher-ed25519.c:144-177 | the new chaining value is that of section 6.4.2 of FIPS 180-4 for every block and chaining value |
| `Sha512Stream.LoadStore` | firmware/exp019_signed_bootloader/src/monocypher-ed25519.c:82-104 | big-endian storing and loading of a word are inverse |
| `Sha512Stream.Ctx.constructor` | firmware/exp019_signed_bootloader/src/monocypher-ed25519.c:196-210 | a new context holds the empty message |
| `Sha512Stream.Ctx.Incr` | firmware/exp019_signed_bootloader/src/monocypher-ed25519.c:187-194 | the two-word counter adds with its carry, modulo 2^128 |
| `Sha512Stream.Ctx.SetInput` | firmware/exp019_signed_bootloader/src/monocypher-ed25519.c:180-185 | one byte is put into its place of the buffered words |
| `Sha512Stream.Ctx.Update` | firmware/exp019_signed_bootloader/src/monocypher-ed25519.c:212-273 | a context that holds m holds m followed by the new bytes, for any length and alignment |
| `Sha512Stream.LastBlock` | firmware/exp019_signed_bootloader/src/monocypher-ed25519.c:277-294 | with room for the length, padding takes one block as section 5.1.2 of FIPS 180-4 demands |
| `Sha512Stream.LastTwoBlocks` | firmware/exp019_signed_bootloader/src/monocypher-ed25519.c:277-294 | without room for the length, padding takes two blocks |
| `Sha512Stream.Ctx.Final` | firmware/exp019_signed_bootloader/src/monocypher-ed25519.c:275-302 | the digest is the hash of the padded message that the context holds |
| `Sha512Stream.HashParts` | firmware/exp019_signed_bootloader/src/monocypher-ed25519.c:196-310 | any way of splitting a message over updates gives the hash of the concatenation |
| `Ed25519.HashReduce` | firmware/exp019_signed_bootloader/src/monocypher-ed25519.c:430-445 | four parts hashed one after the other and reduced mod L |
| `Ed25519.Check` | firmware/exp019_signed_bootloader/src/monocypher-ed25519.c:475-481 | a signature is accepted exactly if it is valid in the sense of section 5.1.7 of RFC 8032, with the cofactored equation |
| `Ed25519.TrimmedRange` | firmware/exp019_signed_bootloader/src/monocypher.c:1501-1507 | a trimmed scalar is a multiple of 8 from 2^254 up and below 2^255 |
| `Ed25519.ExpandKey` | firmware/exp019_signed_bootloader/src/monocypher-ed25519.c:457-458 | the hash of the seed, split into the trimmed scalar and the prefix |
| `Ed25519.KeyPair` | firmware/exp019_signed_bootloader/src/monocypher-ed25519.c:417-428 | the public key is the encoded multiple of B by the secret scalar, and the secret key is the seed followed by it |
| `Ed25519.Sign` | firmware/exp019_signed_bootloader/src/monocypher-ed25519.c:447-473 | from a secret key and a message: the encoded [r]B for r = H(prefix, M) mod L, followed by (H(R, A, M) a + r) mod L for the hashed and trimmed scalar a |
| `Ed25519.EquationScalar` | firmware/exp019_signed_bootloader/src/monocypher.c:2032-2065 | for a key and a commitment that are multiples of B the checked point is the multiple of B by s - h*a - r |
| `Ed25519.SignedIsValid` | firmware/exp019_signed_bootloader/src/monocypher-ed25519.c:447-481 | every signature made under a seed is valid for its public key |
| `Ed25519.SignThenCheck` | firmware/exp019_signed_bootloader/src/monocypher-ed25519.c:417-481 | generating a key pair, signing and checking returns 0, for every seed, message and sound curve |
| `Poly1305.ColumnsValue` | firmware/exp019_signed_bootloader/src/monocypher.c:338-343 | the five columns, with the 5/4 trick, are congruent to the product with r mod 2^130-5 |
| `Poly1305.ColumnsFit` | firmware/exp019_signed_bootloader/src/monocypher.c:331-343 | given a clamped r and an accumulator within its bound, every 32-bit product, every 64-bit product and every partial sum of the columns fits its width |
| `Poly1305.Reduce` | firmware/exp019_signed_bootloader/src/monocypher.c:345-358 | the partial reduction keeps the value mod 2^130-5 and the bound h <= 4_ffffffff_ffffffff_ffffffff_ffffffff |
| `Poly1305.Block` | firmware/exp019_signed_bootloader/src/monocypher.c:331-358 | one block: h becomes congruent to (h + c) * r, within the bound, and no 32-bit or 64-bit operation on the way to the columns overflows |
| `Poly1305.Ctx.PolyBlocks` | firmware/exp019_signed_bootloader/src/monocypher.c:304-365 | over any number of blocks the accumulator stays within the bound and congruent to the accumulator of section 2.5 of RFC 8439 |
| `Poly1305.Ctx.constructor` | firmware/exp019_signed_bootloader/src/monocypher.c:367-376 | the key is clamped and split, and nothing is absorbed yet |
| `Poly1305.Ctx.Update` | firmware/exp019_signed_bootloader/src/monocypher.c:378-412 | any fragmentation of the message absorbs the same bytes |
| `Poly1305.ExcessFive` | firmware/exp019_signed_bootloader/src/monocypher.c:425-434 | the comparison with 2^130-5 decides the final reduction |
| `Poly1305.AddPad` | firmware/exp019_signed_bootloader/src/monocypher.c:425-439 | the tag is (h mod p + pad) mod 2^128 |
| `Poly1305.Ctx.Final` | firmware/exp019_signed_bootloader/src/monocypher.c:414-441 | a last partial block is padded with a one, and the tag is that of the whole message |
| `Poly1305.Authenticate` | firmware/exp019_signed_bootloader/src/monocypher.c:443-450 | key to tag: section 2.5 of RFC 8439, for a message cut into any number of updates |
| `InstallCatalog.DecodeEncode` | tools/module_install.py:115-234 | a well-formed record is read back as written |
| `InstallCatalog.EncodeDecode` | tools/module_install.py:115-234 | accepted bytes are exactly the encoding of the record read |
| `InstallCatalog.IterValidRecords` | tools/module_install.py:237-244 | the scan yields the decodable whole chunks in order |
| `InstallCatalog.RecoverCatalog` | tools/module_install.py:247-267 | the fold over the records gives the recovery view |
| `InstallCatalog.RecordsAppend` | tools/module_install.py:237-244 | for any bytes c and x the records of c are a prefix of those of c + x |
| `InstallCatalog.TornAppend` | tools/module_install.py:291-292 | an append torn inside its record is not seen at all |
| `InstallCatalog.WholeAppend` | tools/module_install.py:287-289 | a whole append adds its record and nothing else |
| `InstallCatalog.ViewMonotone` | tools/module_install.py:254-265 | more records never lower a floor and never lift a revocation |
| `InstallCatalog.RecoveryMonotone` | tools/module_install.py:247-267 | whatever bytes are appended, floors and revocations only grow |
| `InstallCatalog.NewestIsLast` | tools/module_install.py:261-265 | with increasing sequence numbers the fold by highest number finds the last record appended |
| `InstallSafety.AppendSpec` | tools/module_install.py:578-612 | an append keeps the catalog whole and ordered, and recovery sees exactly that one record more |
| `InstallSafety.InstallKeeps` | tools/module_install.py:406-423 | between all writes of an installation the confirmed package, its slot and the floor of every module stay |
| `InstallSafety.TornInstallKeeps` | tools/module_install.py:298-299 | so they do when the slot write itself is torn after any number of bytes |
| `InstallSafety.ActivateKeeps` | tools/module_install.py:432-453 | activation keeps them, after each of its two records |
| `InstallSafety.RollbackKeeps` | tools/module_install.py:464-478 | rollback keeps them |
| `InstallSafety.InitFailedKeeps` | tools/module_install.py:480-493 | a recorded initialization failure keeps them |
| `InstallSafety.QuarantineKeeps` | tools/module_install.py:495-502 | quarantine keeps them |
| `InstallSafety.RevokeKeeps` | tools/module_install.py:532-549 | a revocation keeps them |
| `InstallSafety.RemoveCandidateKeeps` | tools/module_install.py:504-530 | removing a candidate keeps them if the slot it erases is not the confirmed one |
| `InstallSafety.RemoveCandidateExactly` | tools/module_install.py:504-530 | and only then: preservation holds if and only if the newest candidate slot differs from the confirmed slot |
| `InstallSafety.ConfirmRaises` | tools/module_install.py:455-462 | confirmation makes the floor the version of the package now confirmed, strictly above the old floor unless the same package is confirmed again |
| `InstallSafety.ConfirmOther` | tools/module_install.py:455-462 | confirming one module changes nothing for another |
| `InstallSafety.RunKeeps` | tools/module_install.py:336-339 | across any run, each operation completed or cut after any write, a module that is not confirmed in it keeps its confirmed package |
| `InstallSafety.RunRaises` | tools/module_install.py:406-558 | across any run the floor never falls, and it rises strictly whenever another package or slot is confirmed in the end |
| `InstallSafety.FromEmptyFlash` | tools/module_install.py:270-275 | from empty flash the floor is 0 until the first confirmation and the confirmed package's version ever after, and that package can be read back |
| `InstallSafety.ConfirmedPackageStays` | tools/module_install.py:551-558 | after any run from empty flash the confirmed package stays what it is through any further run in which the module is not confirmed |
| `InstallSafety.TornCatalog` | tools/module_install.py:291-292 | a torn last append leaves the recovered view and the confirmed package as they were |
| `InstallProgress.AppendSucceeds` | tools/module_install.py:578-612 | an append succeeds exactly if the record is well formed and a sequence number is left |
| `InstallProgress.ConfirmedVerifies` | tools/module_install.py:374-404 | the confirmed package verifies again exactly if its signer is still accepted: the floor never blocks it |
| `InstallProgress.RollbackExactly` | tools/module_install.py:464-478 | rollback succeeds exactly if the signer is accepted, the failure count can grow and a sequence number is left |
| `InstallProgress.RollbackRestores` | tools/module_install.py:471-478 | rolling back an activated upgrade rejects it, counts a failure, returns to the confirmed slot and makes removal of the candidate harmless |
| `InstallProgress.FailureQuarantines` | tools/module_install.py:486-493 | a failed initialization counts one more failure against the failing slot, and at the threshold the module can neither be activated nor confirmed |
| `InstallProgress.QuarantineBlocks` | tools/module_install.py:495-502 | a quarantined module can neither be activated nor confirmed |
| `InstallProgress.InstallExactly` | tools/module_install.py:406-423 | installation of a verified package succeeds exactly if none is under way, the version is new and two sequence numbers are left |
| `InstallProgress.ActivateExactly` | tools/module_install.py:432-453 | activation of a ready module succeeds exactly if the signer is accepted and two sequence numbers are left, and exchanges the slots |
| `InstallProgress.ConfirmExactly` | tools/module_install.py:455-462 | confirmation of a running module succeeds exactly if the signer is accepted and a sequence number is left; its package is then the confirmed one and its version the floor |
| `InstallProgress.UpgradeThenRemove` | tools/module_install.py:432-453 | the family shut out by the removal condition: after any upgrade is installed and activated, removing the candidate erases the confirmed package |
| `InstallWitness.FirstRollout` | tools/module_install.py:406-462 | from empty flash every package that verifies can be installed, activated and confirmed, and is then read back |
| `InstallWitness.UpgradeLoses` | tools/module_install.py:504-514 | any two packages of a module, the second newer, make a run from empty flash after which the confirmed package is gone |
| `InstallWitness.LostPackage` | tools/module_install.py:504-514 | one such run with everything spelled out |
| `InstallRevocation.RunGrows` | tools/module_install.py:247-267 | on any flash contents and through any run, no recovered floor falls and no revocation is lifted |
| `InstallRevocation.RevokeRevokes` | tools/module_install.py:532-549 | a completed revocation puts the signer into the recovered set |
| `InstallRevocation.RevokedForGood` | tools/module_install.py:376-377 | once the module signer is revoked, every later installation, activation, confirmation, rollback, failure record and quarantine is refused without a write, on any flash contents |
| `InstallEnvironment.PackageReaderIsSound` | tools/module_install.py:380-391 | the package reader under the installer's policy satisfies what the run theorems assume of package checks |
| `ModuleInstallers.SimulatedFlash.AppendCatalog` | tools/module_install.py:287-289 | the catalog grows by the record, and power is lost exactly at the chosen write |
| `ModuleInstallers.SimulatedFlash.WriteSlot` | tools/module_install.py:294-296 | slot A or B is replaced, and power is lost exactly at the chosen write; other slots are refused |
| `ModuleInstallers.SimulatedFlash.EraseSlot` | tools/module_install.py:301-303 | slot A or B is removed, and power is lost exactly at the chosen write; other slots are refused |
| `ModuleInstallers.SimulatedFlash.ReadSlot` | tools/module_install.py:305-306 | the content of slot A or B, if any; other slots are refused |
| `ModuleInstallers.SimulatedFlash.SetPowerLossAfter` | tools/module_install.py:283-285 | the next power loss is set |
| `ModuleInstallers.ModuleInstaller.NextNumber` | tools/module_install.py:605-612 | one above the highest recorded number, or none when they are used up |
| `ModuleInstallers.ModuleInstaller.AppendRecord` | tools/module_install.py:578-603 | the record is appended under the next number, or refused without a write |
| `ModuleInstallers.ModuleInstaller.Install` | tools/module_install.py:406-423 | the image and the outcome are those of the operation's plan of writes, cut where power is lost |
| `ModuleInstallers.ModuleInstaller.Activate` | tools/module_install.py:432-453 | the image and the outcome are those of the operation's plan of writes, cut where power is lost |
| `ModuleInstallers.ModuleInstaller.Confirm` | tools/module_install.py:455-462 | the image and the outcome are those of the operation's plan of writes, cut where power is lost |
| `ModuleInstallers.ModuleInstaller.Rollback` | tools/module_install.py:464-478 | the image and the outcome are those of the operation's plan of writes, cut where power is lost |
| `ModuleInstallers.ModuleInstaller.Quarantine` | tools/module_install.py:495-502 | the image and the outcome are those of the operation's plan of writes, cut where power is lost |
| `ModuleInstallers.ModuleInstaller.RemoveCandidate` | tools/module_install.py:504-530 | the image and the outcome are those of the operation's plan of writes, cut where power is lost |
| `ModuleInstallers.ModuleInstaller.RevokeSigner` | tools/module_install.py:532-549 | the image and the outcome are those of the operation's plan of writes, cut where power is lost |
| `ModuleInstallers.ModuleInstaller.RecordInitializationResult` | tools/module_install.py:480-493 | a failure follows its plan; a success writes nothing and is accepted exactly for pending and active modules |
| `ModuleInstallers.ModuleInstaller.CurrentConfirmedPackage` | tools/module_install.py:551-558 | the content of the confirmed slot, if its hash is the recorded one; an error exactly if the confirmed record names no slot |
| `ModuleInstallers.NeverAnError` | tools/module_install.py:551-558 | in every run from empty flash that is careful with removals that error does not occur |
| `ModuleInstallers.EndedIsEvent` | tools/module_install.py:336-339 | every ending of an operation on this flash is one of the events of the run theorems |
| `BytecodeProgram.EncodeProgram` | tools/bytecode_vm.py:96-130 | the encoder's loop writes header and code, or refuses |
| `BytecodeProgram.ParseProgram` | tools/bytecode_vm.py:133-165 | the parser's loop reads what the format function reads, stopping at the first invalid instruction |
| `BytecodeProgram.ParseEncode` | tools/bytecode_vm.py:96-196 | an encoded program parses to itself exactly if all its instructions are valid |
| `BytecodeProgram.EncodeParse` | tools/bytecode_vm.py:96-165 | a blob that parses is the encoding of what it parses to |
| `BytecodeVm.RunBounded` | tools/bytecode_vm.py:249-345 | a run ends within its budget and its stack limit, and emits nothing without the output capability |
| `BytecodeVm.RunMonotone` | tools/bytecode_vm.py:259-286 | a halting run is unchanged by a higher budget or a higher stack limit |
| `BytecodeVm.RunBlind` | tools/bytecode_vm.py:212-220 | without the capability the register snapshot does not influence a run at all |
| `BytecodeVm.Sandbox` | tools/bytecode_vm.py:249-286 | the three together, for any bytes: budget, both stack limits, no outputs and no register reads without their capabilities |
| `BytecodeVm.ExecutionMonotone` | tools/bytecode_vm.py:249-286 | a halting result of any bytes survives a higher budget and machine stack limit |
| `BytecodeVm.SyscallHost.Serve` | tools/bytecode_vm.py:212-230 | the host answers, denies and records outputs as specified |
| `BytecodeVm.Machine.Execute` | tools/bytecode_vm.py:249-345 | the interpreter loop computes the specified run, and the host's outputs are those of the result, faults included |
| `BytecodeAssembler.AssembleText` | tools/bytecode_asm.py:100-144 | the two passes over the lines give the specified assembly, or refuse |
| `BytecodeAssembler.StepAgrees` | tools/bytecode_asm.py:147-216 | one machine step on a translated instruction does what the source instruction says |
| `BytecodeAssembler.TranslatedValid` | tools/bytecode_asm.py:184-214 | a translated instruction can be packed, and is valid except for system calls with more than four arguments |
| `BytecodeAssembler.RunAgrees` | tools/bytecode_asm.py:143-144 | running translated code equals running the source with absolute labels |
| `BytecodeAssembler.AssemblerCorrect` | tools/bytecode_asm.py:100-144 | assembled bytes load exactly if no system call has more than four arguments, and then every execution gives the source program's result or fault |
| `BytecodeAssembler.FiveArguments` | tools/bytecode_asm.py:208-214 | a text with a five-argument system call assembles, and its bytes do not load |
| `Frames.DecodeEncode` | tools/stm32ctl/protocol.py:139-170 | an encoded frame is decoded to itself |
| `Frames.EncodeDecode` | tools/stm32ctl/protocol.py:139-170 | a frame that decodes is the encoding of what it decodes to |
| `Frames.MagicAfterJunk` | tools/stm32ctl/protocol.py:202-207 | the magic cannot overlap itself: after bytes without it, it is first found where it starts |
| `Frames.FrameAfterJunk` | tools/stm32ctl/protocol.py:198-216 | the first frame after junk without the magic is exactly the frame sent, and takes exactly those bytes |
| `Frames.Transport.ReadOne` | tools/stm32ctl/protocol.py:179-184 | one byte, or the deadline |
| `Frames.Transport.ReadExact` | tools/stm32ctl/protocol.py:187-195 | exactly the bytes asked for, in order, whatever the fragmentation, or the deadline |
| `Frames.Synchronise` | tools/stm32ctl/protocol.py:202-207 | the stream is left just past its first magic |
| `Frames.ReadFrame` | tools/stm32ctl/protocol.py:198-216 | the outcome is that of the first frame of the stream for every fragmentation, nothing past it is taken, and enough live reads before the deadline exclude a timeout |
| `Frames.ReadSentFrame` | tools/stm32ctl/protocol.py:198-216 | junk without the magic, then a frame, then anything: the frame is received and exactly the rest is left, unless too few reads before the deadline return something |
| `UpdateClient.BlocksFit` | tools/stm32ctl/client.py:150-154 | every block fits its frame for whatever a validated target allows |
| `UpdateClient.BlocksReassemble` | tools/stm32ctl/client.py:150-155 | a receiver that insists on contiguous offsets and sequence numbers gets exactly the payload, whenever every offset fits 32 bits |
| `UpdateClient.UpdateOnTheWire` | tools/stm32ctl/client.py:146-160 | a whole update: sequence numbers advance by one mod 65536, all frames fit, and the blocks reassemble to the payload |
| `UpdateClient.ShortIsAddressable` | tools/stm32ctl/client.py:150-155 | payloads of up to 2^32 bytes never meet an offset that struct cannot pack |
| `UpdateClient.Stm32Client.SendOnce` | tools/stm32ctl/client.py:55-70 | a payload that does not fit is refused unsent; otherwise one frame is written, it is accepted only on a matching positive response, and the sequence advances, by one, if and only if the first frame that arrives in time is a matching response, positive or not |
| `UpdateClient.Stm32Client.Request` | tools/stm32ctl/client.py:72-92 | only repeatable requests are repeated, unchanged; every repetition follows a timeout, and it gives up exactly after all attempts have timed out |
| `UpdateClient.Stm32Client.Hello` | tools/stm32ctl/client.py:94-99 | the information kept is that of the accepted response, and only if it passes validation |
| `UpdateClient.Stm32Client.SendBlocks` | tools/stm32ctl/client.py:150-157 | the blocks are written in order up to the first that is not accepted or whose offset does not fit 32 bits |
| `UpdateClient.Stm32Client.Stream` | tools/stm32ctl/client.py:145-170 | a completed update has written exactly the planned frames; an incomplete one a prefix of them and at most an abort request, which an offset beyond 32 bits does not send |
| `UpdateClient.Stm32Client.Update` | tools/stm32ctl/client.py:123-170 | the same from the package and the target's information, after the greeting if one was needed; a failed update has written nothing more, or a prefix of the plan and at most an abort request |
| `ModulePackage.UnpackPack` | tools/module_format.py:90-122 | a packed header is unpacked to itself |
| `ModulePackage.PackUnpack` | tools/module_format.py:90-130 | header bytes are those of the unpacked header, and the signed form is those bytes with the signature blanked |
| `ModulePackage.DecodeCapabilities` | tools/module_format.py:141-166 | the loop accepts exactly word lists that are short, nonzero, distinct and supported |
| `ModulePackage.AcceptedIsCanonical` | tools/module_format.py:185-288 | an accepted package is its re-packed header, capability words and payload, without a gap |
| `ModulePackage.SignatureCoversAll` | tools/module_format.py:276-286 | the signature was checked over the whole package with only itself blanked |
| `ModulePackage.PrefixRefused` | tools/module_format.py:209-210 | no proper prefix of an accepted package is accepted under any policy |
| `ModulePackage.BuildExactly` | tools/module_format.py:291-381 | the closing self-check never fails: a package is built exactly for acceptable requests, and reads back as requested |
| `NativePayload.BuildNativePayload` | tools/native_loader.py:233-280 | the payload is assembled piece by piece into the specified layout, and validated |
| `NativePayload.BuiltExactly` | tools/native_loader.py:233-280 | building succeeds exactly within the limits, and validation gives the parts back |
| `NativePayload.ValidatedIsBuilt` | tools/native_loader.py:297-355 | an accepted payload is what building its parts gives |
| `Crc32.ShiftOut` | firmware/exp014_bootloader_crc/src/image.c:24-27 | the bit loop with its mask is eight applications of the bit step |
| `Crc32.Crc32Ieee` | firmware/exp014_bootloader_crc/src/image.c:17-31 | the two loops compute the specified checksum of any data |
| `Crc32.ShiftInjective` | firmware/exp014_bootloader_crc/src/image.c:25-26 | the bit step loses no information |
| `Crc32.WordIsFed` | firmware/exp014_bootloader_crc/src/image.c:21-28 | the n lowest bits of a word, put into the state at once or fed one by one, have the same effect |
| `Crc32.FoldIsFeed` | firmware/exp014_bootloader_crc/src/image.c:21-28 | the loop over bytes is a loop over the bits of the data, lowest first |
| `Crc32.BitsInjective` | firmware/exp014_bootloader_crc/src/image.c:21-28 | up to 32 bits fed from the same state to the same state are the same bits |
| `Crc32.BitBurstDetected` | firmware/exp014_bootloader_crc/src/image.c:17-31 | messages of any length that differ only within 32 consecutive bits, at any bit position, have different checksums |
| `Crc32.LongerBurstMissed` | firmware/exp014_bootloader_crc/src/image.c:17-31 | two messages that differ within 33 consecutive bits have the same checksum, so 32 is the most that holds |
| `Crc32.BurstDetected` | firmware/exp014_bootloader_crc/src/image.c:17-31 | messages of any length that differ only within four consecutive bytes have different checksums |
| `Crc32.ImageValidate` | firmware/exp014_bootloader_crc/src/image.c:33-78 | the chain of checks in order |
| `Crc32.BitDamageDetected` | firmware/exp014_bootloader_crc/src/image.c:66-75 | flash that differs from an accepted image only within 32 consecutive bits is accepted exactly if the image itself is unchanged |
| `Crc32.DamageDetected` | firmware/exp014_bootloader_crc/src/image.c:66-75 | flash that differs from an accepted image only within four consecutive bytes is accepted exactly if the image itself is unchanged |

## Left out

- Edwards and Montgomery point formulas, square roots and point encoding: the curve is a parameter with the group laws, order L of the base point and decode-after-encode as assumptions.
- `fe_sq`, `fe_mul_small` and inversion: the same column technique as `fe_mul` without a harder property.
- Field25519.FeCarry: does not cover t0 from 2^63 - 2^25 on, which the comment in the source admits and where its first addition overflows (`Field25519.CarryRoom`).
- Ed25519.Sign: multiples of the base point are the group's own; the signed comb that computes them is not modelled, nor are the domain-separated and pre-hashed variants.
- Constant time, wiping of buffers and unforgeability: not properties of what the functions compute.
- Argon2, BLAKE2b, ChaCha20, X25519, Elligator and the HMAC and key-derivation functions: not on the boot path.
- The second copy of Monocypher under exp022: the same code.
- Sha512.Compress: the chaining value is passed and returned as a value; only the message words are updated in place.
- Catalog appends that follow a torn append: the simulator would write them misaligned; runs are cut between writes or inside a slot write, and a torn append ends a run.
- JSON and base64 persistence, cloning of flash, listing and inspection of the installer: plumbing around the modelled state.
- Assembler text handling (comments, directives' spelling, integer syntax, argument counts): the model starts from lines whose numbers are read.
- Real time and the serial port: a deadline is a list of the reads that happen before it, with the bytes at hand at each; a short write fails the request and is not logged.
- Progress callbacks of the update client: no effect on what is sent.
- Status and reset requests, error texts and the command-line tools: no further property.
- The native module manager and platform API table: lifecycle bookkeeping without a property across operations.
- Boot metadata, slot selection, register-level firmware and the layout, release and report tools: outside these four cores.
