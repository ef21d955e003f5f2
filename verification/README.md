# Formal models of the repository's core algorithms

Dafny models of six parts of the repository, each proved against a simple specification:

- **FatFs volume engine** (`FatGeometry`, `FatEntries`, `FatChains`, `FatAlloc`, `FatfsVolume`, `AllocRuns`, `FileLayout`,
  `FileState`, `ByteStream`, `FilObject`, `LongNames`, `VolumeLayout`). The one-sector write-back window refines a plain array of
  sectors, the packed FAT12/16/32 entries over it a table of numbers, the allocator a set of disjoint cluster
  chains, and the file functions, with their own dirty sector buffer, a sequence of bytes with a cursor. Each layer is a class
  whose methods are proved against functions of the layer below. Long file names are cut into directory entries and
  read back by the reader's state machine; the layout search of `f_mkfs` is compared with the checks of
  `mount_volume`.
- **Curve25519 arithmetic** (`Digits`, `SlideRecoding`, `SlideCarry`, `Radix16`, `TableSelect`, `PointGroup`,
  `DoubleScalarMult`, `BaseScalarMult`, `Field25519`, `FieldMul`, `FieldOps`, `FieldReps`, `FieldBytes`, `PrimeField`,
  `LimbMasks`, `Edwards`, `EdwardsLaw`, `EdwardsComplete`, `Ladder`). Ten-limb arithmetic modulo
  2^255 - 19 with 32-bit and 64-bit integers as subset types, so that every assignment is a proof that nothing
  overflows; canonical encoding; point formulas against section 5.1.4 of RFC 8032,
  which stay on the curve and, if p is prime, never have a zero denominator; signed-digit recodings and the
  schedules over an abstract commutative group; and the lazily swapped Montgomery ladder against the branching ladder of
  section 5 of RFC 7748.
- **Yay0 codec** (`Yay0Format`, `Yay0Proofs`, `Yay0`). The compressor and decompressor are proved equal to functions, and
  these to be inverse to each other; the compressor's links are the longest that the window and the format allow.
- **Strongly connected components of the include graph** (`SccSpec`, `SccSteps`, `Scc`). Full functional correctness
  of the recursive search on shared state.
- **Recompiler dispatch and module tables** (`Dispatch`, `ModuleTables`). The constant-time dispatcher agrees with the
  linear scan, and the chunk ranges are recovered from either shape.
- **Chunk worker queue** (`Jobs`). All interleavings of the workers, as atomic steps.

Facts shared by these modules are in `Arith` and `MachineInts`.

## What turned out not to hold

- `f_mkfs` finds layouts that `mount_volume` refuses: its check for sixteen clusters is made before the data area is
  aligned, and the alignment can take up all of them. `VolumeLayout.AlignedAway` gives a volume of 4096 sectors on a
  device with erase blocks of 4096 sectors for which the search ends with such a layout; `VolumeLayout.FoundMounts` says
  exactly when the two agree, and `VolumeLayout.ShortBlocksMount` that they do for short erase blocks.
- The comment on `fe_tobytes` bounds the input by p, so that the quotient is at most one in absolute value. The
  limb bounds stated beside it allow inputs slightly beyond p. The result is right all the same, as
  `FieldBytes.FeToBytes` shows for all inputs within the limb bounds.
- Yay0 files keep 32-bit sizes and offsets: inputs of 2^32 bytes or more never come back (`Yay0Proofs.TooLong`).
- The constant-time dispatcher reads past its table when the last range is longer than the stride. The planner collects
  the ranges of all sections in one list, so this can happen: `Dispatch.OverrunningSections` gives three sections that lie
  apart. `Dispatch.StaysInside` says that for sections that lie apart it happens exactly then, and
  `Dispatch.TwoSections` that it does not for a short section and a long one.
- For scalars of 2^255 and more `slide` can lose the carry out of digit 255; `SlideRecoding.CarryLost` gives 17 * 2^251, and
  `SlideCarry.SlideKeepsValue` says for which scalars it does.
- Intermediate sums in the point formulas exceed the bounds stated for `fe_add` and `fe_sub`; they still fit, and every
  operand passed to a multiplication is within the bounds stated there.

## Model

| member | source | states |
|---|---|---|
| `FatEntries.FlushedTwice` | Externals/FatFs/ff.c:1025-1043 | writing the window back once more changes nothing |
| `FatfsVolume.Fatfs.CopiesMeaning` | Externals/FatFs/ff.c:1025-1043 | while the window holds no changed sector of the second FAT, the abstract copies are equal exactly when on the disk every sector of the first FAT, a changed one in the window aside, equals its copy |
| `FatfsVolume.Fatfs.SyncWindow` | Externals/FatFs/ff.c:1025-1043 | afterwards the window is clean and the disk, second FAT included, is the abstract sector array |
| `FatfsVolume.Fatfs.MoveWindow` | Externals/FatFs/ff.c:1047-1068 | the window shows the requested sector of the abstract array, which does not change |
| `FatfsVolume.Fatfs.GetFat` | Externals/FatFs/ff.c:1131-1199 | the entry of the cluster table, for all three packings, or 1 for a number outside the table |
| `FatfsVolume.Fatfs.PutFat` | Externals/FatFs/ff.c:1209-1258 | the table with this one entry replaced by the value masked to 12, 16 or 28 bits; sectors outside the FAT stay |
| `FatEntries.StoreTable` | Externals/FatFs/ff.c:1209-1258 | storing an entry in the packed bytes changes exactly that entry of the table, straddling FAT12 entries included |
| `FatEntries.StoreFrame` | Externals/FatFs/ff.c:1209-1258 | storing an entry writes FAT sectors only and keeps both copies equal |
| `FatEntries.Store12Entry` | Externals/FatFs/ff.c:1222-1234 | a 12-bit entry reads back as stored and every other entry as before |
| `FatGeometry.ClustersDisjoint` | Externals/FatFs/ff.c:1114-1122 | different clusters have no sector in common |
| `FatGeometry.InFirstFatMeaning` | Externals/FatFs/ff.c:1035 | the unsigned comparison that triggers mirroring means that the sector lies in the first FAT |
| `FatfsVolume.Fatfs.Clst2Sect` | Externals/FatFs/ff.c:1114-1122 | the first sector of a cluster, and 0 for a number outside the volume |
| `FatChains.ChainAcyclic` | Externals/FatFs/ff.c:1494-1585 | a chain that reaches an end mark never comes back to a cluster |
| `FatChains.StretchChain` | Externals/FatFs/ff.c:1570-1573 | linking a free cluster behind the last one lengthens that chain and keeps all chains well formed |
| `FatChains.CutChain` | Externals/FatFs/ff.c:1399-1485 | cutting a chain shortens that chain only and keeps all chains well formed |
| `FatChains.FreeIsCut` | Externals/FatFs/ff.c:1399-1485 | marking the previous cluster and freeing link by link is cutting the chain, and ends with success |
| `FatChains.FreeTail` | Externals/FatFs/ff.c:1423-1456 | the freeing loop frees exactly the clusters of the chain |
| `FatfsVolume.Fatfs.CreateChain` | Externals/FatFs/ff.c:1494-1585 | the first free cluster in cyclic order from the hint is linked, 0 only if none is free or the count says so, and a known free count stays exact |
| `FatfsVolume.Fatfs.RemoveChain` | Externals/FatFs/ff.c:1399-1485 | the table is what freeing along the links gives, it ends even on a cyclic chain, and a known free count stays exact |
| `FatfsVolume.Fatfs.ScanFree` | Externals/FatFs/ff.c:1556-1569 | the wrap-around scan finds the first free cluster after the hint and fails only if there is none |
| `FatAlloc.FreeAfterLink` | Externals/FatFs/ff.c:1576-1580 | allocation lowers the number of free entries by one |
| `AllocRuns.CreateSafe` | Externals/FatFs/ff.c:1494-1585 | one call of create_chain changes only the chain operated on, and fails only on a full volume |
| `AllocRuns.RemoveSafe` | Externals/FatFs/ff.c:1399-1485 | one call of remove_chain succeeds and changes only the chain operated on |
| `AllocRuns.RunSafe` | Externals/FatFs/ff.c:1399-1585 | after any run of calls the chains are acyclic, ended, disjoint and cover all used clusters, and a known free count is exact |
| `FileLayout.FileSectorInjective` | Externals/FatFs/ff.c:3870-3895 | different sectors of a file lie in different places |
| `FileLayout.PutContent` | Externals/FatFs/ff.c:4011-4031 | writing whole sectors of a run through the disk overwrites exactly these bytes of the file |
| `FileLayout.PatchContent` | Externals/FatFs/ff.c:4047-4055 | writing part of a sector overwrites exactly these bytes of the file |
| `FilObject.Fil.Read` | Externals/FatFs/ff.c:3850-3940 | a read step of the byte stream: the bytes at the cursor, which moves behind them, and nothing else changes |
| `FilObject.Fil.Write` | Externals/FatFs/ff.c:3950-4062 | a write step of the byte stream, complete unless the volume is full or the size reaches 4 GiB; nothing changes but the FAT and the clusters of the file |
| `FilObject.Fil.Lseek` | Externals/FatFs/ff.c:4367-4522 | a seek step of the byte stream: the cursor is at the target, clipped at the end when read-only, and at the end of the file when the volume is full; old bytes stay, only the FAT changes, and clust is the cluster of the byte before the cursor |
| `FilObject.Fil.Truncate` | Externals/FatFs/ff.c:4842-4883 | the file ends at the cursor, the chains stay well formed and only the FAT changes |
| `FilObject.PerformAll` | Externals/FatFs/ff.c:3850-4883 | any sequence of calls on one open file is a run of the byte stream, from what the file was to what it is; each write in it is complete unless the volume is full or the size reaches 4 GiB |
| `ByteStream.UntouchedKept` | Externals/FatFs/ff.c:3850-4062 | over any run a byte that no call writes stays as it is |
| `ByteStream.ReadsLastWritten` | Externals/FatFs/ff.c:3850-4062 | over any run a read returns, for every byte, what the last write to it wrote |
| `LongNames.PutLfn` | Externals/FatFs/ff.c:1928-1953 | the entry holds its thirteen characters, terminator and filler, order, flag and check sum |
| `LongNames.PickLfn` | Externals/FatFs/ff.c:1890-1919 | the buffer and the verdict of a recursive definition, never writing past the buffer |
| `LongNames.PickEntry` | Externals/FatFs/ff.c:1890-1919 | an entry that put_lfn wrote is accepted and puts its part of the name into the buffer |
| `LongNames.PutEntries` | Externals/FatFs/ff.c:2494-2508 | all entries of the name, the last part first |
| `LongNames.DirRead` | Externals/FatFs/ff.c:2275-2343 | stops at the next short entry, in the state that reading the entries before it one by one leaves |
| `LongNames.LongNameRead` | Externals/FatFs/ff.c:2287-2339 | from any state, the entries of a name followed by a short entry with their check sum give exactly that name |
| `LongNames.RegisterThenRead` | Externals/FatFs/ff.c:2275-2508 | behind any entries that are passed over, the entries written for a name and their short entry make the reader stop at that, with the name in its buffer |
| `LongNames.WrongSum` | Externals/FatFs/ff.c:2316-2326 | an entry with another check sum, or behind one that was not expected, makes the reader forget the name |
| `LongNames.ReportedExactly` | Externals/FatFs/ff.c:2316-2339 | a whole set of entries gives a name exactly when all its check sums are that of the short entry |
| `VolumeLayout.ChooseLayout` | Externals/FatFs/ff.c:6101-6173 | the retry loop ends with the first acceptable attempt in its order, or gives up where no attempt is left |
| `VolumeLayout.FoundAcceptable` | Externals/FatFs/ff.c:6101-6173 | what is found has passed all checks for one type and one possible cluster size |
| `VolumeLayout.MountAccepts` | Externals/FatFs/ff.c:3460-3509 | an accepted layout is mounted exactly when it has a cluster; then type, cluster count and FAT size agree and the regions are disjoint inside the volume |
| `VolumeLayout.FoundMounts` | Externals/FatFs/ff.c:3460-3509 | what the search finds is mounted exactly when one cluster fits behind the system sectors and the alignment gap, and then everything agrees |
| `VolumeLayout.ShortBlocksMount` | Externals/FatFs/ff.c:6101-6173 | whatever is found is mounted where an erase block is not longer than fifteen clusters |
| `VolumeLayout.ClusterLeft` | Externals/FatFs/ff.c:6130-6146 | a cluster is left exactly when the alignment gap leaves room for one |
| `VolumeLayout.NoGapNoLoss` | Externals/FatFs/ff.c:6130-6146 | without alignment at least sixteen clusters are left |
| `VolumeLayout.AlignedAway` | Externals/FatFs/ff.c:6101-6173 | a volume for which the search ends with a layout that is not mountable |
| `VolumeLayout.FatLargeEnough` | Externals/FatFs/ff.c:6101-6173 | the FAT has room for every entry |
| `SlideRecoding.Slide` | Externals/ed25519/ge.c:25-58 | every digit is 0 or odd and at most 15, and the digits are worth the scalar unless its top bit is set and a carry is lost |
| `SlideRecoding.CarryLost` | Externals/ed25519/ge.c:25-58 | for 17 * 2^251 the digits are worth 2^256 less than the scalar |
| `SlideCarry.SlidWorth` | Externals/ed25519/ge.c:25-58 | for every scalar, the digits are worth it, or 2^256 less where its windows of five bits carry out of 256 bits |
| `SlideCarry.SlideKeepsValue` | Externals/ed25519/ge.c:25-58 | the value is kept if and only if no window carries out |
| `SlideRecoding.CarriedValue` | Externals/ed25519/ge.c:44-51 | the carry loop adds one, and loses a carry only when all digits above are one |
| `SlideRecoding.BorrowKeeps` | Externals/ed25519/ge.c:41-51 | subtracting a bit and carrying keeps the value and the form of the digits, and below 2^255 no carry is lost |
| `DoubleScalarMult.OddTable` | Externals/ed25519/ge.c:77-100 | the odd multiples of the point up to 15 |
| `DoubleScalarMult.DoubleScalarmultVartime` | Externals/ed25519/ge.c:67-130 | aA + bB in every commutative group, for all scalars below 2^255, and for larger ones what the recoded digits are worth |
| `DoubleScalarMult.CombinationStep` | Externals/ed25519/ge.c:109-129 | doubling and adding the digits of one position takes in that position |
| `Radix16.Recode` | Externals/ed25519/ge.c:394-410 | digits of -8 to 7 below the top one, worth the scalar |
| `Radix16.TopDigitFits` | Externals/ed25519/ge.c:410-411 | the top digit is at most 8 exactly for scalars up to a stated bound |
| `Radix16.ClampedFits` | Externals/ed25519/ge.c:382-383 | scalars with a top byte of at most 127 are within that bound |
| `TableSelect.EqualMeaning` | Externals/ed25519/ge.c:333-341 | the comparison without branches is equality |
| `TableSelect.NegativeMeaning` | Externals/ed25519/ge.c:343-347 | the shifted sign extension is the sign |
| `TableSelect.AbsoluteMeaning` | Externals/ed25519/ge.c:359 | the masked subtraction is the absolute value |
| `LimbMasks.CmovMeaning` | Externals/ed25519/fe.c:134-188 | the masked exclusive or moves all limbs or leaves them |
| `LimbMasks.CswapMeaning` | Externals/ed25519/fe.c:197-259 | the masked exclusive or swaps all limbs or leaves them |
| `LimbMasks.XorBack` | Externals/ed25519/fe.c:218-258 | applying a word twice by exclusive or leaves what was there |
| `TableSelect.Select` | Externals/ed25519/ge.c:356-375 | the table entry of the digit, negated for a negative digit, the neutral element for 0 and digits beyond the table |
| `BaseScalarMult.EvenAndOdd` | Externals/ed25519/ge.c:414-433 | even digits plus sixteen times the odd ones make up the number |
| `BaseScalarMult.ScalarmultBase` | Externals/ed25519/ge.c:386-434 | aB in every commutative group for scalars up to the bound, and beyond it aB without the top digit |
| `PointGroup.MultipleAdd` | Externals/ed25519/ge.c:67-130 | multiples of a point add up, for all integers |
| `Field25519.CarryProduct` | Externals/ed25519/fe.c:712-753 | the carry chain keeps the number modulo p and brings every limb within 1.01 * 2^25 and 2^24 |
| `Field25519.CarryOddEven` | Externals/ed25519/fe.c:319-348 | the other carry chain keeps the number modulo p and brings every limb within 1.1 * 2^25 and 2^24 |
| `FieldMul.MulColumns` | Externals/ed25519/fe.c:577-700 | the ten sums of products, computed without overflow |
| `FieldMul.ColumnsProduct` | Externals/ed25519/fe.c:691-700 | these sums are worth the product modulo p |
| `FieldMul.FeMul` | Externals/ed25519/fe.c:556-765 | for operands within 1.65 * 2^26 and 2^25 nothing overflows, the limbs represent f g, within 1.01 * 2^25 and 2^24 |
| `FieldMul.FeSq` | Externals/ed25519/fe.c:982-1127 | f f, limb for limb what the multiplication gives |
| `FieldMul.FeSq2` | Externals/ed25519/fe.c:1145-1300 | 2 f f within the same bounds |
| `FieldMul.Square0` | Externals/ed25519/fe.c:1061 | the sum of six products of a square is the sum of ten of a product |
| `FieldOps.FeAdd` | Externals/ed25519/fe.c:81-123 | the exact sum, with added bounds |
| `FieldOps.FeSub` | Externals/ed25519/fe.c:1315-1357 | the exact difference, with added bounds |
| `FieldOps.FeNeg` | Externals/ed25519/fe.c:846-878 | the exact negation within the same bounds |
| `FieldOps.FeMul121666` | Externals/ed25519/fe.c:779-833 | 121666 f modulo p, carried |
| `FieldOps.FeInvert` | Externals/ed25519/fe.c:364-448 | z to the power p - 2 |
| `FieldOps.FePow22523` | Externals/ed25519/fe.c:881-964 | z to the power (p - 5) / 8 |
| `FieldOps.InverseMeaning` | Externals/ed25519/fe.c:364-448 | this power is the inverse where z to the power p - 1 is 1 |
| `FieldBytes.QuotientExact` | Externals/ed25519/fe.c:1361-1418 | the rounded estimate and the chain of carries give the exact quotient by p |
| `FieldBytes.CutValue` | Externals/ed25519/fe.c:1459-1490 | the 32 bytes cut from canonical limbs are worth the same |
| `FieldBytes.FeToBytes` | Externals/ed25519/fe.c:1386-1491 | the little-endian representative in [0, p), for all limbs within 1.1 * 2^26 and 2^25 |
| `FieldBytes.LoadedValue` | Externals/ed25519/fe.c:298-307 | the limbs loaded from 32 bytes are worth the bytes without their top bit |
| `FieldBytes.FeFromBytes` | Externals/ed25519/fe.c:297-360 | the number in the bytes without their top bit, carried |
| `FieldBytes.Reencoded` | Externals/ed25519/fe.c:297-1491 | reading and writing clears the top bit and reduces modulo p; canonical bytes come back |
| `Edwards.GeAdd` | Externals/ed25519/ge.c:9-22 | the completed sum of the points that the operands hold modulo p, for limbs up to the documented 1.1 * 2^25 and 2^24, every multiplied operand being within its bounds |
| `Edwards.GeSub` | Externals/ed25519/ge.c:441-455 | the same for the negated point |
| `Edwards.GeMadd` | Externals/ed25519/ge.c:188-200 | the same for a point from the table |
| `Edwards.GeMsub` | Externals/ed25519/ge.c:207-220 | the same for a negated point from the table |
| `Edwards.GeP2Dbl` | Externals/ed25519/ge.c:259-271 | what the completed double holds, for limbs within the same bounds |
| `Edwards.GeP1p1ToP2` | Externals/ed25519/ge.c:227-231 | the three products of a completed point |
| `Edwards.GeP1p1ToP3` | Externals/ed25519/ge.c:239-244 | the four products of a completed point, within the bounds of a product |
| `Edwards.GeP3ToCached` | Externals/ed25519/ge.c:302-307 | the cached form of a point with limbs within the same bounds |
| `Edwards.CurveConstants` | Externals/ed25519/ge.c:133-300 | the limbs of d represent -121665 / 121666, those of d2 its double |
| `EdwardsLaw.AdditionLaw` | Externals/ed25519/ge.c:9-22 | the completed sum, converted, satisfies both equations of section 5.1.4 of RFC 8032 and X Y = Z T |
| `EdwardsLaw.DoublingLaw` | Externals/ed25519/ge.c:259-271 | on the curve, the completed double satisfies the equations for adding a point to itself |
| `EdwardsLaw.AdditionClosed` | Externals/ed25519/ge.c:9-22 | the sum of two points of the curve lies on the curve |
| `EdwardsLaw.DoublingClosed` | Externals/ed25519/ge.c:259-271 | the double of a point of the curve lies on the curve |
| `EdwardsComplete.AdditionComplete` | Externals/ed25519/ge.c:9-22 | where d is not a square and -1 is one, the sum of two points has a denominator |
| `EdwardsComplete.DoublingComplete` | Externals/ed25519/ge.c:259-271 | the same for the double |
| `EdwardsComplete.ProgramCurve` | Externals/ed25519/ge.c:133-135 | if p is prime, the two preceding results hold for the constant of the program |
| `PrimeField.RootOfMinusOne` | Externals/ed25519/ge.c:137-139 | the limbs of sqrtm1 represent a square root of -1 |
| `PrimeField.PrimeHasNoZeroDivisors` | Externals/ed25519/fe.c:364-448 | if p is prime, a product is zero modulo p only if a factor is |
| `PrimeField.Fermat` | Externals/ed25519/fe.c:364-448 | if p is prime, every number but zero to the power p - 1 is 1 |
| `PrimeField.InverseExists` | Externals/ed25519/fe.c:364-448 | if p is prime, what fe_invert computes is the inverse of every number but zero |
| `PrimeField.DIsNoSquare` | Externals/ed25519/ge.c:133-135 | if p is prime, d times a square is a square for zero only |
| `EdwardsComplete.AddCached` | Externals/ed25519/ge.c:80-81 | addition and conversion give the sum of operands within these bounds, again a point of the curve that can be an operand |
| `EdwardsComplete.SubCached` | Externals/ed25519/ge.c:115-124 | the same for the negated point |
| `EdwardsComplete.AddTable` | Externals/ed25519/ge.c:414-418 | the same for a point from the table |
| `EdwardsComplete.SubTable` | Externals/ed25519/ge.c:123-128 | the same for a negated point from the table |
| `EdwardsComplete.DoublePoint` | Externals/ed25519/ge.c:78-79 | doubling and conversion give the sum of the point with itself, again a point of the curve |
| `Ladder.FeStep` | Externals/ed25519/key_exchange.c:52-70 | one step on limbs is one step of section 5 of RFC 7748 modulo p, within all bounds |
| `Ladder.LazyStep` | Externals/ed25519/key_exchange.c:45-71 | one turn, its swaps by masks included: with the pending swap undone, the registers hold the plain ladder before the turn and after it |
| `Ladder.LazyLadder` | Externals/ed25519/key_exchange.c:38-74 | the registers of the plain ladder once the last pending swap is undone |
| `Ladder.LadderMultiples` | Externals/ed25519/key_exchange.c:44-71 | given correct formulas, the registers hold k and k + 1 times the point for every prefix k |
| `Ladder.ClampedScalar` | Externals/ed25519/key_exchange.c:25-27 | a clamped key is a multiple of 8 between 2^254 and 2^255, and the ladder uses all of it |
| `Ladder.KeyExchange` | Externals/ed25519/key_exchange.c:4-79 | the canonical encoding of x2 / z2 of the plain ladder on the converted public key |
| `Yay0.MaskWriter.PushBack` | docs/gc-font-tool.cpp:617-642 | one more bit in the byte string |
| `Yay0.MaskReader.PopFront` | docs/gc-font-tool.cpp:645-671 | the next bit, failing exactly when its byte lies outside |
| `Yay0Proofs.PackHolds` | docs/gc-font-tool.cpp:617-642 | the byte string holds the bits, and zeros up to its end |
| `Yay0.FindLink` | docs/gc-font-tool.cpp:789-824 | the link that the recursive search finds |
| `Yay0Proofs.Longest` | docs/gc-font-tool.cpp:792-845 | no longer link was available, and a literal byte is written only when every match is shorter than three bytes |
| `Yay0.CompressFile` | docs/gc-font-tool.cpp:777-858 | the file that the specification of the encoder gives |
| `Yay0.ReplayLink` | docs/gc-font-tool.cpp:910-911 | the self-overlapping copy |
| `Yay0.DecompressFile` | docs/gc-font-tool.cpp:861-922 | the bytes, or the error, that the specification of the decoder gives for any input |
| `Yay0Proofs.EndsInChunk` | docs/gc-font-tool.cpp:803-815 | the last byte is never covered by a link |
| `Yay0Proofs.RoundTrip` | docs/gc-font-tool.cpp:777-922 | decoding the encoded file gives the input back, when its length and all offsets fit 32 bits |
| `Yay0Proofs.RoundTripBySize` | docs/gc-font-tool.cpp:777-922 | the same, with a bound on the input alone |
| `Yay0Proofs.TooLong` | docs/gc-font-tool.cpp:850 | inputs of 2^32 bytes or more never come back |
| `Yay0Proofs.Short` | docs/gc-font-tool.cpp:849-858 | an encoded file has at most 16 + n + ceil(n / 8) bytes |
| `Scc.SccFinder.StrongConnect` | Tools/find-includes-cycles.py:37-68 | visits only what the node reaches, keeps the invariant of the search, and ends, unvisited nodes being the measure |
| `Scc.SccFinder.PopComponent` | Tools/find-includes-cycles.py:60-68 | moves the stack from the node on into a component, in the order of popping |
| `Scc.SccFinder.Visit` | Tools/find-includes-cycles.py:70-72 | the stack is empty after each root call |
| `SccSteps.LoopRecursed` | Tools/find-includes-cycles.py:50-53 | the low link stays right when a successor has been visited |
| `SccSteps.TopIsComponent` | Tools/find-includes-cycles.py:58-68 | the nodes at and above a root are one strongly connected component |
| `SccSteps.PopKeepsInv` | Tools/find-includes-cycles.py:62-68 | popping a component keeps the invariant and the reverse topological order |
| `SccSteps.StaysOnStack` | Tools/find-includes-cycles.py:58-59 | a node that is not a root reaches a node below it on the stack |
| `Scc.StronglyConnectedComponents` | Tools/find-includes-cycles.py:23-74 | exactly the components of the nodes reachable from a key, each node in one, no component reaching a later one |
| `Dispatch.CheckRegular` | DolRecomp/src/main.c:154-171 | the flag says exactly whether all ranges but the first lie at a constant distance and each ends where the next begins |
| `Dispatch.SameFunction` | DolRecomp/src/main.c:148-207 | for every address both shapes select the same function, inside the table |
| `Dispatch.LongerLastRange` | DolRecomp/src/main.c:184-193 | a last range longer than the stride takes the index past the table |
| `Dispatch.PlanSection` | DolRecomp/src/main.c:372-435 | appends the chunks of a section |
| `Dispatch.PlannedSectionIsRegular` | DolRecomp/src/main.c:372-435 | a section of several chunks behind one range gets the constant-time shape, with a last range that is not too long |
| `Dispatch.PlanSections` | DolRecomp/src/main.c:293-452 | the list of functions that all sections leave |
| `Dispatch.StaysInside` | DolRecomp/src/main.c:148-197 | for sections that lie apart, the table is read inside its bounds exactly when the last range is not longer than the stride |
| `Dispatch.OverrunningSections` | DolRecomp/src/main.c:148-197 | three sections that lie apart and an address for which the table is read past its end |
| `Dispatch.TwoSections` | DolRecomp/src/main.c:148-197 | a short section and a long one never read past the table |
| `ModuleTables.ChunkRanges` | module-template/gen_module_tables.py:80-89 | one chunk for each function, or the address that no code range holds |
| `ModuleTables.Recovered` | module-template/gen_module_tables.py:58-89 | from the guards and names of either shape, in any order, exactly the planned ranges come back |
| `ModuleTables.SectionsRecovered` | module-template/gen_module_tables.py:58-89 | the same for the ranges of all sections of a program |
| `Jobs.WorkerQueue.TakeJob` | DolRecomp/src/jobs.c:82-93 | the next job, unless the queue has failed or is empty |
| `Jobs.WorkerQueue.MarkFailed` | DolRecomp/src/jobs.c:95-99 | only the flag changes |
| `Jobs.NoJobTwice` | DolRecomp/src/jobs.c:82-121 | in every interleaving jobs are taken in order, none twice |
| `Jobs.NothingAfterFailure` | DolRecomp/src/jobs.c:82-121 | once the flag is set it stays set and no job is taken |
| `Jobs.Success` | DolRecomp/src/jobs.c:123-199 | success means that every job was written exactly once, none with an error |
| `Jobs.StepsEnd` | DolRecomp/src/jobs.c:101-199 | every step leaves less to do, so every interleaving ends |
| `Jobs.NoDeadlock` | DolRecomp/src/jobs.c:101-199 | until the call can return, some thread can take a step |
| `Jobs.RunAlone` | DolRecomp/src/jobs.c:138-144 | with one worker the jobs are written in order up to the first error |

## Left out

- FatFs: disk errors, the abort flag of a file object and `validate`; sectors are read and written in memory.
- FatFs: caller buffers are passed as sequences of bytes; `& (csize - 1)` is written as a remainder, as the cluster size is
  a power of two.
- FatFs: the FSInfo sector, `sync_fs`, the directory entry update of `f_sync`, and the directory lookup of `f_open`.
- FatFs: exFAT, file locks, fast seek, `f_expand`, `f_forward`, volume labels and code pages, which the configuration compiles
  out or which are tables.
- LongNames.DirRead: works on a sequence of entries; the sectors of the directory, `dir_next` and the offset of the name's
  first entry are not modelled.
- FatFs: moving through a directory on disk (`dir_sdi`, `dir_next`, `dir_alloc`) and the numbered short names; the long name
  model works on the sequence of 32-byte entries.
- FatFs: UTF-8 conversion of names (`tchar2uni`, `put_utf`).
- VolumeLayout.ChooseLayout: sums of sector numbers that wrap past 2^32 are not modelled; products and the final
  difference are taken in 32-bit arithmetic.
- Limb arrays are passed and returned as values, while points are objects whose fields are overwritten: each field
  function reads all limbs before it writes one, so that overlapping operands make no difference.
- `ge_frombytes_negate_vartime`, signing, verification, SHA-512 and the scalar reduction; the table contents are taken to be
  the stated multiples of the base point.
- EdwardsComplete.ProgramCurve: that p is prime is a hypothesis, here and in `PrimeField`, and the only one.
- The associativity of the sum on the curve is not proved, so that the schedules over an abstract commutative group are not
  instantiated with it.
- Ladder.LadderMultiples: that the doubling and differential addition formulas compute multiples is a hypothesis.
- Yay0: allocation failures; the offset of a link that is never used is 0 where the program leaves it undefined.
- The tiling, dithering and bitmap functions of the font tool, FreeType rendering and file input and output.
- Dispatch: the text that is emitted; guards and tables are modelled as functions of the address. Sections whose addresses wrap
  past 2^32 are not planned.
- ModuleTables.Recovered: parsing the generated header; the guards and names are given as lists without their text. The
  SMC ranges and the hashes are not modelled.
- Jobs: the creation of threads and the writing of files are steps that may fail; the limit of 64 threads on one platform is
  part of the requested number.
- The Bochs disassembler, the LZO library, the recompiler's instruction analysis, loaders and command lines.
