# Quidra verification model

A Dafny model of the hardest self-contained algorithms of the Quidra compiler and
runtime, with proofs. Code that updates fields, vectors or cursors step by step is
modelled by classes and methods with loop invariants, each proved against a
specification function or relation; expressions and recursion are functions and lemmas.

`dafny verify dfyconfig.toml` checks the whole project.

## Parts

- **Decimal conversion** (`Arithmetic`, `Bits`, `Naturals`, `Formats`, `Decimals`,
  `IntCasts`, `ExactRounding`, `Conversion`, `ExponentClamps`, `RealLiterals`). Decimal text becomes an IEEE 754
  encoding. `Formats` defines correct rounding independently of any algorithm, as in
  section 4.3.1 of IEEE 754-2019: distances to all finite values of the format, ties to
  the even significand, infinity from the halfway point above the largest finite value
  (`CorrectlyRounded`), and proves it has one solution. Values are counted in units of the
  smallest subnormal value, so all arithmetic is on integers. The 32-bit limbs, 64-bit
  carries, the signed borrow of the big integer and the 32-bit `int` of its bit lengths and
  shift counts are explicit subset types.
- **The built-in `Map`** (`OrderedMaps`, `ProbeTables`, `HashMaps`, `MapHistories`). The
  specification is an insertion-ordered list of entries. The class has the fields of the
  original, with the lookup cache, and any hash function.
- **Generic families** (`Options`, `TypePatterns`, `CallShapes`, `FunctionFamilies`).
  One-way type matching, the order on constraints, and the choice of a family member.
- **Deferred GPU work** (`DeferredNodes`, `ValidationPages`, `DevicePools`). Every method
  is one locked section, a part of one, or a device action between two of them. It requires
  of the shared state only the class invariant, and of the caller only its own ticket, view
  or batch. Any interleaving of threads is therefore a sequence of such calls, and the
  invariants hold after every step of every run. The private state of each consumer of
  checks is part of the modelled state, because it is live across its sections.
- **Shape variables** (`ShapeOrder`): the depth-first cycle check and the worklist after it.
- **Range loops** (`RangeCounts`): comparison and division of decimal texts, and the trip count.
- **UTF-8 and editor positions** (`Utf8`, `LspPositions`), against the grammar of section 4
  of RFC 3629 and the UTF-16 positions of the Language Server Protocol 3.17.
- **Literal arithmetic** (`LiteralArithmetic`): checked 64-bit evaluation in a literal type.

## Where the code differs from its comments

- `src/ieee_decimal.hpp:49-51` says that exponents beyond the limit round to zero or
  overflow either way. That is not so for every text: a point, k zeros and a one, times
  ten to the k + 1, is one, but exponents of 17 digits and more are read too small and it
  becomes zero (`ClampCanMatter`, with the least such k). `ClampKeepsValueExactlyWhen` says
  for which texts the limit is harmless; texts below 10^14 characters are among them
  (`ClampIsHarmless`).
- The same comment's clamp is not the first limit that long texts meet: from about 646
  million significant digits on, the bit length of the number is no `int`, and the cast in
  `src/ieee_decimal.hpp:104-108` changes it (`LongDigitsDoNotFit`), which puts the estimated
  exponent off by 2^32 until, from about 925 million digits on, both bit lengths are changed
  alike (`LongerDigitsFitAgain`). The conversion is proved for all digits whose estimate and
  shift counts survive the casts (`FitsInt`), up to 644 million significant ones among them
  (`ShortDigitsFit`).
- `src/device_backend.cpp:580-582` calls a synchronization the earliest safe point for a
  block to re-enter the pool. The reap after a synchronization frees every block the lists
  hold by then, also one used and given back since the marker (`FreeBeforeFinished`);
  `ReapIsSafeExactlyWhen` says exactly when it is safe all the same.
- `src/device_backend.cpp:481-499` compacts the list of waiting blocks in place. When a block
  to free finds no memory on the free list, the compaction ends there, and the list is left as
  it is: sound exactly when no block had been freed before (`InterruptedIsSoundExactlyWhen`).
- `src/device_backend.cpp:1870-1871` recycles a page when every slot is consumed or
  abandoned. A slot is neither when there is no memory for its view after the slot was taken
  (`src/device_backend.cpp:1562-1564`), or none for queueing its check after the caller gave
  the view up (`src/device_compute.inc:2182`). Its page is then never recycled
  (`LostSlotBlocksPage`, `BalanceExactlyWhen`).

## Model

| member | source | states |
|---|---|---|
| Naturals.Natural.constructor | src/ieee_decimal.hpp:95-100 | a 64-bit word becomes a normalized number of that value |
| Naturals.Natural.BitLength | src/ieee_decimal.hpp:104-108 | the binary length of the value, cast to int |
| Naturals.LengthIsExactExactlyWhen | src/ieee_decimal.hpp:104-108 | the cast keeps the length exactly below 2^31 binary digits |
| Naturals.Natural.MultiplyAdd | src/ieee_decimal.hpp:110-119 | the value becomes value * factor + addend; no 64-bit product overflows |
| Naturals.Natural.MultiplyPowerOfFive | src/ieee_decimal.hpp:121-130 | the value is multiplied by 5^exponent, and stays for exponents that are not positive |
| Naturals.Natural.ShiftLeft | src/ieee_decimal.hpp:132-146 | for an int count that is not negative, the value is multiplied by 2^bits, with no leading zero limb left |
| Naturals.Natural.ShiftRightOne | src/ieee_decimal.hpp:148-156 | the value is halved, rounding down |
| Naturals.Natural.Subtract | src/ieee_decimal.hpp:159-169 | the value becomes the difference; the final borrow is zero |
| Naturals.Natural.Trim | src/ieee_decimal.hpp:184-186 | leading zero limbs go, the value stays |
| Naturals.Compare | src/ieee_decimal.hpp:171-181 | -1, 0 or 1 exactly as the values compare |
| Naturals.BitWidthOfLimbs | src/ieee_decimal.hpp:104-108 | whole limbs plus the width of the top limb is the binary length |
| Formats.CorrectlyRoundedIsUnique | src/ieee_decimal.hpp:250-251 | at most one code of a format is the correct rounding of a fraction |
| Formats.NearestIsCorrect | src/ieee_decimal.hpp:250-251 | binade, quotient and half-even choice give the correct rounding of every fraction, subnormals, carries and infinity included |
| Formats.CorrectlyRoundedScales | src/ieee_decimal.hpp:272-285 | only the ratio of numerator and denominator matters |
| Decimals.Parse | src/ieee_decimal.hpp:52-87 | accepts exactly the texts of the decimal grammar, and returns the sign, the digits before and after the point and the limited exponent of the parts the text is made of |
| Decimals.AcceptedIffDecimalText | src/ieee_decimal.hpp:48-51 | the scan of the parser succeeds on exactly the texts the grammar spells |
| Decimals.SpelledIsAccepted | src/ieee_decimal.hpp:52-87 | the scan accepts every text of the grammar and finds just the parts it is made of, which are unique |
| Decimals.ClampBounds | src/ieee_decimal.hpp:76-81 | the saturating exponent is exact, or lies between the limit and the true exponent and below ten times the limit |
| Decimals.ClampIsExactExactlyWhen | src/ieee_decimal.hpp:76-81 | exponents are read exactly just below ten times the limit; from there on at most a tenth is read |
| IntCasts.ShortDigitsFit | src/ieee_decimal.hpp:272-310 | up to 644 million significant digits the casts leave the difference of the bit lengths and every shift count right |
| IntCasts.LongDigitsDoNotFit | src/ieee_decimal.hpp:104-108 | from 646,554,245 significant digits on the cast bit length is not the bit length; up to 920 million its difference from the other one is wrong too |
| IntCasts.LongerDigitsFitAgain | src/ieee_decimal.hpp:288-300 | from 930 million to 1.9 billion significant digits both bit lengths change alike: their difference and the shift counts are right again |
| Decimals.SignificantDigits | src/ieee_decimal.hpp:227-248 | the digits without outer zeros and their power of ten have the exact decimal value |
| ExactRounding.Encode | src/ieee_decimal.hpp:191-197 | the three fields do not overlap: the encoding is their sum |
| ExactRounding.InfinityBits | src/ieee_decimal.hpp:199-201 | the encoding of the infinity of the sign |
| ExactRounding.BitWidthsEstimate | src/ieee_decimal.hpp:288-300 | the difference of bit lengths is the binary exponent of the quotient or one more |
| ExactRounding.BinaryExponent | src/ieee_decimal.hpp:288-300 | when the casts keep the difference of the bit lengths, the corrected estimate e satisfies 2^e <= value < 2^(e+1) |
| ExactRounding.Divide | src/ieee_decimal.hpp:312-321 | bit by bit, dividend = q * divisor + remainder, remainder below the divisor, q below 2^precision |
| ExactRounding.ScaledDivision | src/ieee_decimal.hpp:302-321 | exact quotient and remainder of the scaled fraction |
| ExactRounding.ExactQuotient | src/ieee_decimal.hpp:287-321 | the whole of it, with all shift counts in int: the value in units of the scale is the quotient and a proper remainder |
| ExactRounding.QuotientInRange | src/ieee_decimal.hpp:302-303 | the quotient fits the significand and is normalized above the subnormal range |
| ExactRounding.QuotientDecides | src/ieee_decimal.hpp:323-332 | the quotient and the sign of 2 * remainder - divisor decide the correctly rounded code |
| ExactRounding.LargeMagnitudeOverflows | src/ieee_decimal.hpp:257-265 | values of more than 310 integer digits round to infinity in all four formats |
| ExactRounding.SmallMagnitudeVanishes | src/ieee_decimal.hpp:266-270 | values below 10^-330 round to zero in all four formats |
| ExactRounding.Fraction | src/ieee_decimal.hpp:272-285 | numerator and denominator times a power of two are the exact value |
| ExactRounding.EncodeRounded | src/ieee_decimal.hpp:328-348 | carry, zero, subnormal, infinity and normal branches encode the code of the rounded significand |
| ExactRounding.RoundExact | src/ieee_decimal.hpp:250-349 | for all digits and exponents whose estimate and shift counts survive the casts to int, or that the cutoffs decide, and the four formats, the result encodes the correctly rounded value, and the overflow and underflow flags are exact |
| Conversion.DoubleRounding | src/ieee_decimal.hpp:392-400 | rounding a wide result again gives the narrow rounding of the exact value, unless the wide result is halfway between narrow values |
| Conversion.MidpointIsWide | src/ieee_decimal.hpp:392-397 | the halfway points between narrow values are exact wide values, recognized by the dropped bits |
| Conversion.FastOperationIsExact | src/ieee_decimal.hpp:356-369 | both operands are exact, so one correctly rounded operation rounds the exact decimal |
| Conversion.Binary64FastPath | src/ieee_decimal.hpp:360-376 | whenever it answers, the answer is the correctly rounded binary64 code |
| Conversion.FastRange | src/ieee_decimal.hpp:386-387 | values of the fast path are normal in both formats |
| Conversion.NarrowedIsExact | src/ieee_decimal.hpp:392-400 | off the halfway points the narrowed result is the correctly rounded binary32 code |
| Conversion.Round | src/ieee_decimal.hpp:380-404 | with or without the fast path the result is the correct rounding of any decimal, of any length, whose significant digits survive the casts to int |
| Conversion.ClampIsHarmless | src/ieee_decimal.hpp:49-51 | below 10^14 characters the limited exponent gives the code of the exact value |
| Conversion.ParseAndRound | src/constant_numeric_eval.hpp:42-44 | from text to bits: rejects exactly the texts outside the grammar, and rounds any other text once and correctly, to the value it is read as, which below 10^14 characters is the value it spells |
| Conversion.ShortTextFits | src/constant_numeric_eval.hpp:42-44 | texts of up to 644 million characters are within reach of the casts to int |
| RealLiterals.Binary64Value | src/ieee_decimal.hpp:414-425 | decoding a finite result of any of the formats, subnormal or not, gives a finite binary64 value of the same sign and magnitude |
| RealLiterals.RealLiteralValue | src/constant_numeric_eval.hpp:40-47 | no value exactly without a format, outside the grammar or when the rounded value is infinite; otherwise the correctly rounded value of the literal as read, exactly, in binary64 |
| RealLiterals.ReadCodeIsSpelled | src/constant_numeric_eval.hpp:40-47 | below 10^14 characters the code of the literal as read is the code of the value it spells |
| ExponentClamps.ExponentsMatter | src/ieee_decimal.hpp:49-51 | different exponents of a nonzero number give one code exactly when the smaller one already overflows or the larger one still vanishes |
| ExponentClamps.ClampKeepsValueExactlyWhen | src/ieee_decimal.hpp:74-84 | the exact condition under which the limit on exponents keeps the rounded value of a text |
| ExponentClamps.ClampCanMatter | src/ieee_decimal.hpp:74-84 | of a family of texts that spell one, exactly those with an exponent of 17 digits or more change their rounded value |
| OrderedMaps.GetAfterPut | src/frontend.cpp:700-746 | after setting a key, it has the new value and every other key its old one |
| OrderedMaps.GetAfterDelete | src/frontend.cpp:748-767 | after removing a key, it is absent and every other key has its old value |
| ProbeTables.Insert | src/frontend.cpp:643-649 | an entry placed at the end of its probe path is reachable, and all others stay reachable |
| ProbeTables.Erase | src/frontend.cpp:754-758 | a tombstone breaks no probe path |
| ProbeTables.ScanProvesAbsent | src/frontend.cpp:620-635 | a probe that meets an empty slot or goes all the way round proves that the key is absent |
| ProbeTables.FullRound | src/frontend.cpp:634-635 | a full table scan without an empty slot has met a tombstone when the live entries leave room |
| HashMaps.Map.SlotOf | src/frontend.cpp:614-635 | finds the live entry of the key, or proves it absent and leaves a usable slot for it; terminates |
| HashMaps.Map.Place | src/frontend.cpp:643-649 | terminates and keeps all placed entries reachable |
| HashMaps.Map.Rehash | src/frontend.cpp:651-657 | the new table indexes exactly the live entries, without tombstones |
| HashMaps.Map.Compact | src/frontend.cpp:659-679 | drops the dead entries; the map as a list of entries is unchanged |
| HashMaps.Map.Has | src/frontend.cpp:681-683 | whether the ordered map has the key |
| HashMaps.Map.Get | src/frontend.cpp:685-698 | the ordered map's value; the cache it leaves is valid |
| HashMaps.Map.Set | src/frontend.cpp:700-746 | the ordered map's update in place or at the end, through the cached index, hash or slot as well; size, tombstone and dead-entry bounds hold |
| HashMaps.Map.Remove | src/frontend.cpp:748-767 | the ordered map's deletion; bounds on live, dead and erased slots hold |
| HashMaps.Map.KeyList | src/frontend.cpp:772-776 | the keys in insertion order |
| HashMaps.Map.ValueList | src/frontend.cpp:778-782 | the values in insertion order |
| HashMaps.Map.Size | src/frontend.cpp:769-770 | the number of entries |
| MapHistories.Run | src/frontend.cpp:590-782 | every history of calls on a new map, under any hash function, gets the answers of the insertion-ordered map |
| MapHistories.HistoriesKeepKeysDistinct | src/frontend.cpp:590-782 | no history lists a key twice |
| MapHistories.LookupsReturnLastSet | src/frontend.cpp:685-767 | a lookup finds the last value set for the key since its last removal |
| TypePatterns.InferSound | src/frontend.cpp:4637-4725 | substituting the bindings of a match, or any extension of them, describes the actual type, or the generic class it is an instance of, entry by entry up to wildcard dimensions and extents |
| TypePatterns.InferExactlyWhen | src/frontend.cpp:4637-4725 | inference succeeds exactly when some bindings that agree with the earlier ones make the pattern fit the actual type, entry by entry and name by name |
| TypePatterns.MatchInfers | src/frontend.cpp:4637-4725 | bindings that make the pattern fit are found again, up to spelling, on exactly the parameters of the pattern |
| TypePatterns.SameTypeExactlyWhen | src/frontend.cpp:3218-3260 | canonical forms are equal exactly for types with the same names, arguments and fixed entries, and wildcards in the same places |
| TypePatterns.InstanceIsItsOrigin | src/frontend.cpp:4665-4679 | a class instance is matched against a pattern of its class as the class with its arguments |
| TypePatterns.InstanceGivesArguments | src/frontend.cpp:4665-4679 | matching an instance of a generic class gives the type arguments it was made with |
| TypePatterns.InferExtends | src/frontend.cpp:4657-4662 | a match keeps earlier bindings and binds only parameters |
| TypePatterns.InferComplete | src/frontend.cpp:3387-3418 | a pattern as it can be written matches each of its instances, and binds exactly its parameters, to the substituted types |
| TypePatterns.MatchRecoversArguments | src/frontend.cpp:3387-3418 | matching an instance from nothing gives the substitution on the pattern's parameters |
| TypePatterns.SubstituteKeepsWritten | src/frontend.cpp:3387-3418 | substituting types that can be written into one gives one |
| CallShapes.SameShapeInfersAlike | src/frontend.cpp:3712-3742 | patterns of one call shape match the same types and bind corresponding parameters alike |
| CallShapes.SameRenamingExactlyWhen | src/frontend.cpp:3712-3742 | two patterns rename to the same placeholders exactly when one is the other with its type parameters renamed position by position |
| FunctionFamilies.DomainsByName | src/frontend.cpp:3521-3612 | the scalar types of each constraint, by their names |
| FunctionFamilies.LanguageIsRich | include/quidra/numeric_types.hpp:84-136 | the numeric kinds of the language tell all constraints apart |
| FunctionFamilies.NarrowerExactlyWhen | src/frontend.cpp:3837-3847 | one constraint is strictly narrower exactly when its types are some but not all types of the other; equatable is broader than none, and distinct constraints have distinct types |
| FunctionFamilies.DisjointExactlyWhen | src/frontend.cpp:3849-3853 | two constraints are disjoint exactly when no type satisfies both |
| FunctionFamilies.MoreSpecificExactlyWhen | src/frontend.cpp:3855-3867 | a member is more specific exactly when it accepts some but not all type arguments of the other, and asks for equality wherever the other does |
| FunctionFamilies.DisjointDomainsExactlyWhen | src/frontend.cpp:3869-3879 | two domains are called disjoint exactly when no type arguments satisfy both members |
| FunctionFamilies.MoreSpecificIsTransitive | src/frontend.cpp:3837-3867 | specificity is transitive |
| FunctionFamilies.MoreSpecificIsAsymmetric | src/frontend.cpp:3837-3867 | two members are never each more specific than the other |
| FunctionFamilies.MoreSpecificHasSmallerDomain | src/frontend.cpp:3593-3612 | type arguments in the domain of the more specific member are in that of the other |
| FunctionFamilies.DisjointDomainsShareNothing | src/frontend.cpp:3849-3879 | no type arguments satisfy two members the check calls disjoint |
| FunctionFamilies.FindAmbiguity | src/frontend.cpp:3994-4007 | an error exactly when some pair of members is neither ordered nor disjoint, at the later member of the first such pair; in terms of domains: when neither domain is properly part of the other and some type arguments satisfy both |
| FunctionFamilies.MostSpecific | src/frontend.cpp:4909-4930 | the candidate more specific than all others, or an error exactly when there is none |
| FunctionFamilies.TotalOrderHasMinimum | src/frontend.cpp:4909-4930 | pairwise ordered candidates have a most specific one |
| FunctionFamilies.OnlyOneDominates | src/frontend.cpp:4909-4930 | there is at most one most specific candidate |
| FunctionFamilies.InferredExactlyWhen | src/frontend.cpp:4727-4784 | a call infers type arguments exactly when its known argument types determine every type parameter and fit under some bindings; all such bindings bind the same types, whatever the order of the arguments |
| FunctionFamilies.SameShapeSameArguments | src/frontend.cpp:3958-3968 | members of an accepted family infer the same type arguments from one call |
| FunctionFamilies.MatchingMembersAreOrdered | src/frontend.cpp:3994-4007 | any two members of an accepted family that match one call are ordered |
| FunctionFamilies.ResolveCall | src/frontend.cpp:4897-4930 | in an accepted family a call with a match resolves to the one match more specific than all others, never to an ambiguity |
| DeferredNodes.DeferredNode.Enqueue | src/deferred_node.hpp:77-86 | a new ticket holds the next sequence number; counts and failures stay consistent |
| DeferredNodes.DeferredNode.Finish | src/deferred_node.hpp:148-163 | the work is recorded as finished once, its failure at its place in enqueue order |
| DeferredNodes.DeferredNode.Link | src/deferred_node.hpp:152-158 | inserting before the first later failure gives the failures in enqueue order |
| DeferredNodes.DeferredNode.NoneCovered | src/deferred_node.hpp:87-95 | the wait ends exactly when no covered work is unfinished, callbacks excepted on request |
| DeferredNodes.DeferredNode.Idle | src/deferred_node.hpp:96-98 | idle exactly when everything enqueued has finished |
| DeferredNodes.DeferredNode.FirstFailure | src/deferred_node.hpp:104-108 | the failure of the earliest enqueued work that failed, none exactly when nothing has failed |
| DeferredNodes.DeferredNode.CoveredFailure | src/deferred_node.hpp:109-115 | the same among the work of a device up to a serial |
| DeferredNodes.DeferredNode.CountIsSum | src/deferred_node.hpp:166-168 | the count is the sum of the pending counts and the number of unfinished tickets |
| DeferredNodes.DeferredTicket.Complete | src/deferred_node.hpp:178-182 | ends the ticket's work once; a second call changes nothing and returns the empty failure |
| DeferredNodes.DeferredTicket.Move | src/deferred_node.hpp:43-44 | the work has exactly one ticket before and after |
| DeferredNodes.DeferredTicket.Assign | src/deferred_node.hpp:45-51 | ends the work held, takes the other's over, and is harmless onto itself and within one node |
| DeferredNodes.DeferredTicket.Destroy | src/deferred_node.hpp:52 | work still held ends without failure |
| DeferredNodes.FailuresAscend | src/deferred_node.hpp:154-157 | the failure list is strictly sorted by enqueue sequence |
| DeferredNodes.FailuresAreComplete | src/deferred_node.hpp:154-157 | it lists exactly the failed work, each with its own key and failure |
| DeferredNodes.FirstSelected | src/deferred_node.hpp:109-115 | the first entry of a kind in the list is the earliest enqueued failure of that kind |
| DeferredNodes.CompletionOrderIsIrrelevant | src/deferred_node.hpp:154-157 | the same completions in any order leave the same list |
| DeferredNodes.SumOfCounts | src/deferred_node.hpp:159-161 | per-key counts of unfinished work add up to its number |
| ValidationPages.Balance | src/device_backend.cpp:1445-1452 | every slot a page has handed out is live, consumed, abandoned or lost |
| ValidationPages.BalanceExactlyWhen | src/device_backend.cpp:1870-1871 | used = live + consumed + abandoned exactly when the page has lost no slot, neither to a view nor to a check that found no memory |
| ValidationPages.AllSettledExactlyWhen | src/device_backend.cpp:1885-1888 | the counts of a page say exactly whether it has handed out slots that are all consumed or abandoned |
| ValidationPages.ValidationState.Acquire | src/device_backend.cpp:1538-1564 | a view of a slot nobody holds, with a zero word, on a page of the device that is not being cleared, or without memory for the view that slot, lost; nothing only when no page has room |
| ValidationPages.ValidationState.AcquireOnNewPage | src/device_backend.cpp:1549-1570 | the first slot of a page appended meanwhile, viewed or lost |
| ValidationPages.ValidationState.LostSlotBlocksPage | src/device_backend.cpp:1562-1564 | a page that has lost a slot is never done, so no consumer claims it |
| ValidationPages.ValidationState.Abandon | src/device_backend.cpp:1588-1594 | the slot is done with, and counted on its page |
| ValidationPages.ValidationState.Defer | src/device_backend.cpp:2160-2176 | the view becomes one waiting check; without memory for it nothing is queued and the slot, which nobody holds any more, is lost |
| ValidationPages.ValidationState.Take | src/device_backend.cpp:1732-1749 | takes exactly the checks of the device up to the covered serial, in order, leaves the others in order, and holds each taken slot |
| ValidationPages.ValidationState.TakeFirst | src/device_backend.cpp:1750-1764 | without memory: takes the first covered check, or ends when there is none |
| ValidationPages.ValidationState.Count | src/device_backend.cpp:1713-1719 | a check is counted consumed once, on its own page |
| ValidationPages.ValidationState.MarkConsumed | src/device_backend.cpp:1876-1884 | every slot the consumer holds is consumed, no other changes |
| ValidationPages.ValidationState.ClaimDonePages | src/device_backend.cpp:1885-1892 | afterwards a page is being cleared exactly when it was before, or it is a page of the device that has handed out slots which are all consumed or abandoned |
| ValidationPages.ValidationState.Clear | src/device_backend.cpp:1907 | clearing a claimed page touches no live slot's word |
| ValidationPages.ValidationState.FinishRecycle | src/device_backend.cpp:1914-1922 | a cleared page starts over, another keeps its counts; both are handed out again |
| ValidationPages.ValidationState.ReleaseClaims | src/device_backend.cpp:1984-1990 | after an allocation failure only the consumer's own claims end |
| ValidationPages.ValidationState.RetireAll | src/device_backend.cpp:1982-1993 | the whole handler, before or after the marking loop: no claim and no open check is left, exactly the slots the consumer held are consumed, all others stay |
| ValidationPages.ValidationState.CountBatch | src/device_backend.cpp:1732-1884 | the usual path counts every covered check and changes no other slot |
| ValidationPages.ValidationState.CountOneByOne | src/device_backend.cpp:1750-1768 | the path without memory leaves the same waiting checks and the same slots |
| ValidationPages.MoveKeepsArena | src/device_backend.cpp:1588-1594 | a live slot changes place while page counts stay exact and pages being cleared stay idle |
| ValidationPages.ResetKeepsArena | src/device_backend.cpp:1916-1920 | resetting a page that is being cleared forgets no live slot |
| ValidationPages.OwedAfterMove | src/device_backend.cpp:1713-1719 | one check fewer is owed when one is counted |
| DevicePools.DevicePool.Reap | src/device_backend.cpp:474-510 | exactly the blocks of the device whose event is done become free, or after a synchronization all that its lists hold by then, and none of those is left waiting; free blocks stay finished exactly when no block that the synchronization did not cover is among them, unless its event is done |
| DevicePools.ReapIsSafeExactlyWhen | src/device_backend.cpp:2270-2293 | a reap that asks the events frees only finished blocks; one after a synchronization exactly when every block of the device that it did not cover has its event done |
| DevicePools.FreeBeforeFinished | src/device_backend.cpp:2270-2293 | a block used and given back between a marker and the reap after it becomes free unfinished |
| DevicePools.DevicePool.SynchronizeAndReap | src/device_backend.cpp:2270-2293 | without another thread in between the reap after a synchronization is safe |
| DevicePools.DevicePool.FreeReady | src/device_backend.cpp:481-499 | the compaction in place frees exactly the ready blocks and keeps the others in order |
| DevicePools.InterruptedIsSoundExactlyWhen | src/device_backend.cpp:481-499 | a compaction that finds no memory for a block leaves a list of the waiting blocks, each once, exactly when it had freed no block yet |
| DevicePools.DevicePool.FreeAllRetired | src/device_backend.cpp:500-509 | every retired block the device has by then, whether or not the synchronization covered it, and no other, becomes free |
| DevicePools.DevicePool.TakeBestFit | src/device_backend.cpp:528-544 | the smallest sufficient free block, finished if free blocks are; none only when no free block suffices |
| DevicePools.DevicePool.Return | src/device_backend.cpp:554-585 | the block waits for its event, or for a synchronization, with a recorded size that it really has |
| DevicePools.DevicePool.ReturnWithoutMemory | src/device_backend.cpp:586-599 | after deferred work the block's event, or a wait for the device, proves its last use finished before the driver gets it back; otherwise the block stays lost to the pool |
| DevicePools.DevicePool.ReleaseFree | src/device_backend.cpp:512-526 | gives up exactly the free blocks of the device |
| DevicePools.DevicePool.Allocate | src/device_backend.cpp:2507-2527 | the buffer's block was free, newly granted, or granted after the free ones were given up; no block in use is touched |
| ShapeOrder.CheckCycles | src/checker_shapes.cpp:433-463 | reports an error exactly when the definitions contain a cycle |
| ShapeOrder.Visit | src/checker_shapes.cpp:435-462 | visited variables form an order with dependencies first; a failed visit exhibits a cycle |
| ShapeOrder.OrderRefutesCycles | src/checker_shapes.cpp:433-463 | such an order of all variables rules cycles out |
| ShapeOrder.SomeAxisIsReady | src/checker_shapes.cpp:478-491 | without cycles some pending axis is ready, so the break without progress is unreachable |
| ShapeOrder.OrderAxes | src/checker_shapes.cpp:465-492 | the worklist ends with exactly the axes whose value check reads a variable, each once, the leftmost ready one first |
| ShapeOrder.PlanOrder | src/checker_shapes.cpp:433-492 | both passes: an error exactly for cycles, otherwise exactly the axes whose value check reads a variable, the leftmost ready one first |
| ShapeOrder.LeftmostOrdersAgree | src/checker_shapes.cpp:465-467 | that order is unique |
| ShapeOrder.ReadsComeFirst | src/checker_shapes.cpp:465-467 | an axis that defines a variable from others comes before the axes that read it |
| RangeCounts.CompareDecides | src/for_loop_constants.hpp:14-19 | comparing signs, lengths and texts decides the order of the integers |
| RangeCounts.DivideNonnegative | src/for_loop_constants.hpp:20-29 | quotient and remainder, the remainder below the divisor |
| RangeCounts.VisitsByDistance | src/for_loop_constants.hpp:93-97 | a lattice point lies in the range exactly when its multiple of the step does not exceed the distance |
| RangeCounts.Count | src/for_loop_constants.hpp:90-102 | the number of lattice points in the range, under each choice of inclusion; none exactly for a step against the direction |
| Utf8.InvalidOffset | src/lexer.cpp:10-51 | accepts exactly the well-formed texts of section 4 of RFC 3629, and otherwise reports the first character that is not well-formed |
| Utf8.WidthByBits | src/lexer.cpp:38-47 | the checks on lead bits, tails, minimum and surrogates are the byte ranges of the RFC |
| Utf8.DecodeOfEncode | src/lsp_server.cpp:44-59 | encoding a scalar value gives one well-formed character, whose width and code point are read back |
| Utf8.AppendedIsWellFormed | src/lsp_server.cpp:44-59 | appending a scalar value to well-formed text keeps it well-formed, and the value is read back behind it |
| Utf8.AppendUtf8 | src/lsp_server.cpp:44-59 | exactly the bytes of the encoding are appended |
| Utf8.EncodeOfDecode | src/lsp_server.cpp:349-367 | the code point of a well-formed character encodes to its bytes, and needs two UTF-16 units exactly for four bytes |
| Utf8.CodePointIsNumber | src/lsp_server.cpp:349-367 | the code point of a well-formed character is the number its lead and tail bytes spell, six bits a tail |
| LspPositions.LspPosition | src/lsp_server.cpp:369-392 | for every text and offset the loop computes the position function; at a character boundary that is the number of newlines before it and the UTF-16 length of the line so far, inside a character one unit more for each byte |
| LspPositions.RawOffset | src/lsp_server.cpp:428-447 | for every text and position the loops compute the offset function; in a well-formed text that is the last boundary of the line within the requested units, never past its newline, or the end of the text when there is no such line |
| LspPositions.OffsetMeaning | src/lsp_server.cpp:428-447 | the same of the offset function |
| LspPositions.PositionMeaning | src/lsp_server.cpp:369-392 | the line is the number of newlines before, the character the UTF-16 length of the line so far |
| LspPositions.PositionInside | src/lsp_server.cpp:380-388 | inside a character every byte counts one unit beyond the position of the character |
| LspPositions.OffsetOfPosition | src/lsp_server.cpp:428-447 | the position of any character boundary leads back to it |
| LspPositions.OffsetIsBoundary | src/lsp_server.cpp:428-447 | every requested position in a well-formed text, past a line's end or inside a surrogate pair too, gives a boundary |
| LiteralArithmetic.QuotientTest | src/constant_integer_eval.hpp:174-180 | the division tests before a multiplication succeed exactly when the product leaves 64 bits |
| LiteralArithmetic.InRange | src/constant_integer_eval.hpp:119-122 | the range test holds exactly for the values of the type, given as numerals for all eight fixed widths, and for nat |
| LiteralArithmetic.HoldsByDigits | include/quidra/types.hpp:336-350 | an unsigned type holds the numbers with at most its width in binary digits, a signed one those that half its span shifts into the unsigned one |
| LiteralArithmetic.EvaluationIsExact | src/constant_integer_eval.hpp:124-188 | Known exactly when the exact result of every step is a value of the type and of 64 signed bits, and then the exact value; OutOfRange only when a step on inside operands really leaves the type |
| LiteralArithmetic.OutOfRangeExactlyWhen | src/constant_integer_eval.hpp:124-188 | OutOfRange exactly when the first step in evaluation order that does not stay inside is a visible departure from the type |
| LiteralArithmetic.NarrowTypesAreDecided | src/constant_integer_eval.hpp:162-188 | below 64 bits every readable expression is Known or OutOfRange, as its exact steps say |

## Left out

- Conversion.ClampIsHarmless: states a sufficient length only; the exact condition is `ClampKeepsValueExactlyWhen`.
- FunctionFamilies.ResolveCall: concrete members, argument binding by name and default values are not modelled; a call is the list of argument types, in parameter order, some of them undetermined.
- TypePatterns.InferSound: traversal results, symbolic dimensions and shape expressions are not modelled, nor the bindings left behind by a failed match.
- HashMaps.Map.Get: int64 counters are unbounded integers, and the hash is any function of the key.
- HashMaps.Map.Compact: appends to new lists instead of filling lists of the final length.
- Naturals.Natural.BitLength: where the sum of the two casts itself leaves `int` the source is undefined; here it wraps too.
- ExactRounding.RoundExact: `FitsInt` is a sufficient condition; a wrong estimate that still leads to the right code is not ruled out.
- Conversion.Round: the same condition, on the significant digits.
- Conversion.ParseAndRound: the same condition, on the text; for texts of 10^14 characters and more the value is the one read.
- RealLiterals.RealLiteralValue: as `ParseAndRound`.
- Conversion.Binary64FastPath: the hardware product, quotient and narrowing are taken to be one correct rounding each, as IEEE 754-2019 specifies them; whether the platform evaluates without excess precision is a parameter.
- DeferredNodes.DeferredNode.Link: the chain of failure cells is a sequence; cell addresses, and the owner a completed ticket keeps alive, are not modelled.
- DeferredNodes.DeferredNode.NoneCovered: the condition variable is not modelled, only the condition it waits for.
- ValidationPages.ValidationState.Defer: messages, reports and tickets of a check are not modelled; its ticket is the one of `DeferredNodes`.
- ValidationPages.ValidationState.RetireAll: its sections follow each other without another thread between them, as in CountBatch, CountOneByOne and DevicePool.SynchronizeAndReap; each section is also a method of its own, under the invariant alone.
- ValidationPages.ValidationState.Clear: the device's clearing either zeroes the page or fails.
- DevicePools.DevicePool.ReturnWithoutMemory: a wait that fails ends the process and is not modelled.
- DevicePools.DevicePool.FreeReady: has memory on the free list for every block; the list left behind without it is `Interrupted`, but not the event destroyed before, and the free and retired lists of `FreeAllRetired` have memory as well.
- DevicePools.DevicePool.Reap: a synchronization is a marker recorded behind the work enqueued so far and, later, the end of the wait for it; the driver is taken to keep that promise.
- DevicePools.DevicePool.Allocate: reaping and taking follow each other without another thread between them; each of the two sections is also a method of its own, under the invariant alone.
- The built-in Set: the same index without values and without the lookup cache.
- Indentation layout of the lexer, JSON strings, dyadic values and greatest common divisors: easier than what is here.
- `integer` of `src/constant_integer_eval.hpp`, with names, casts and division: the same checked operations.
- Host memory blocks and uploads, HIP and Metal pools: the device pool again.
- Native fences, the drain at exit, drivers, compilation and files: foreign code or input and output.
