# pcsets in Dafny

This project models the core of **pcsets**, a Python library for musical pitch class sets, and proves properties of the model.

A pitch class set is an ordered sequence of distinct integers in 0..11. The model covers six areas:

- **Sets** (`pcset.dfy`, module `PcSets`):
  - building a set from integers and the characters `0-9AB`, and printing it back;
  - transposition, inversion, complement, reverse, sort, shift and zero;
  - the bit encoding `binaryvalue`;
  - the canonical forms `normal`, `reduced` and `prime`;
  - the interval-class vector `ivec` and the common-tone vector `cvec`.
- **Canonical forms** (`canon.dfy`, module `CanonicalForms`):
  - the reduced form depends only on the members of a set, and is the same for every transposition;
  - the prime form is the same for every transposition and inversion;
  - two sets with the same prime form are related by some Tn or TnI.
- **Set operations** (`pcops.dfy`, module `PcOps`):
  - the `OpSet` search over the 24 transformations, its `any` and its string form;
  - the equality relations, `op_path`, `symmetry`, `union`, `common` and the complement tests;
  - `harmonize`, `fit_in` and the subset tests;
  - Forte's similarity relations `Rp`, `R0`, `R1`, `R2` and `Zpair`.
- **Tone rows** (`tonerow.dfy`, module `ToneRows`):
  - twelve-tone rows, their forms P, R, I and RI, `shift`, `rotate` and `contour`;
  - the family tests `equivalent` and `rotequiv`.
- **Note names** (`noteops.dfy`, module `NoteOps`):
  - reading note names (`pitchclass_of`, `pcfor`) and writing them (`flat`, `sharp`);
  - the three scoring rules and `eliminate`;
  - the minimum-conflict speller `minconflict`, and `notes`.
- **Prime catalog** (`catalog.dfy`, module `Catalog`):
  - the enumeration of the 4096 sets and `any_match`;
  - the `SetCatalog` class, whose rebuild files every prime form on the page of its size.

`wrappers.dfy` holds the `Option` and `Result` types.

Errors that the library raises as exceptions are values of `Result` here. For example, `IllegalCharacter`, `IncompleteRowError`, `NoteFormatError` and `OpSetError` appear as the `Err` variants of `DefinitionError`, `RowError`, `NoteError` and `OpSetError`.

Loops of the source are methods. Each is proved equal to a specification function, and the properties are proved about those functions. The catalog is a class whose `catalog` field the rebuild fills page by page.

Three behaviours of the code that the model keeps:

- **`normal()` tie-break.** The code starts with the last rotation, `shift(len-1)`, as champion and replaces it only on a strictly smaller encoding. So when all rotations tie (for example `[0, 4, 8]`), the last rotation wins. `PcSets.Champion` and `PcSets.NormalOfAugmented` state this.
- **`prime()` tie.** On equal encodings the code takes the inversion's reduced form. `PcSets.Prime` states this.
- **Note letters with signs.** `pitchclass_of` can return -1 (for `Cb`) and 12 (for `B#`). The set constructor then brings these into 0..11.

## Model

| member | source | states |
|---|---|---|
| PcSets.Moderate | pcsets/pcset.py:127-143 | integers reduce mod 12, digits give their value, 'A' gives 10 and 'B' gives 11; any other character is IllegalCharacter |
| PcSets.PcCharModerate | pcsets/pcset.py:127-143 | the character written for x in a spec string reads back as x |
| PcSets.ModerateAll | pcsets/pcset.py:206-210 | every token moderates in order; the first illegal token decides the error, and the result is Ok exactly when every token is legal |
| PcSets.Dedup | pcsets/pcset.py:211-215 | the append-unless-present loop gives a duplicate-free sequence with exactly the input's elements |
| PcSets.DedupKeepsFirstOccurrenceOrder | pcsets/pcset.py:211-215 | the kept elements appear in the order of their first occurrences |
| PcSets.DedupOfDistinct | pcsets/pcset.py:211-215 | a duplicate-free input is kept as it is |
| PcSets.Build | pcsets/pcset.py:199-215 | a non-iterable definition is NonIterableDef; otherwise the result is Ok exactly when every token moderates |
| PcSets.FromDefinition | pcsets/pcset.py:199-215 | the constructor's loops produce Build(d) |
| PcSets.BuildElems | pcsets/pcset.py:199-215 | a built set holds exactly the moderated values of the tokens |
| PcSets.Str | pcsets/pcset.py:221-230 | one character per element, each '0'..'9', 'A' or 'B', naming that element |
| PcSets.Render | pcsets/pcset.py:221-230 | the loop that appends one character per element returns Str of the set |
| PcSets.ParseThenPrint | pcsets/pcset.py:221-230 | str(PcSet(s)) == s for every duplicate-free spec string over 0-9AB |
| PcSets.PrintThenParse | pcsets/pcset.py:221-230 | parsing the printed form of a set gives the set back |
| PcSets.Len | pcsets/pcset.py:235-236 | the length is the number of distinct elements |
| PcSets.Transpose | pcsets/pcset.py:247-252 | length is kept and every element moves by n: (t - e) % 12 == n % 12 |
| PcSets.Invert | pcsets/pcset.py:240-245 | length is kept and (e + inv(e)) % 12 == 0 at every place |
| PcSets.TnI | pcsets/pcset.py:434-441 | length is kept and (e + r) % 12 == n % 12 at every place |
| PcSets.Ixy | pcsets/pcset.py:443-449 | inversion about x and y swaps x and y wherever they occur |
| PcSets.TransposeZero | pcsets/pcset.py:247-252 | T(0) is the identity |
| PcSets.TransposeCompose | pcsets/pcset.py:247-252 | T(n) after T(m) is T(m + n) |
| PcSets.TransposeModulo | pcsets/pcset.py:247-252 | only n mod 12 matters |
| PcSets.InvertInvolution | pcsets/pcset.py:240-245 | inverting twice gives the set back |
| PcSets.InvertTranspose | pcsets/pcset.py:240-252 | inverting T(n) is T(-n) of the inversion |
| PcSets.TnIInvolution | pcsets/pcset.py:434-441 | TnI(n) undoes itself |
| PcSets.Reverse | pcsets/pcset.py:267-271 | the elements in the opposite order |
| PcSets.ReverseInvolution | pcsets/pcset.py:267-271 | reversing twice gives the set back |
| PcSets.Sort | pcsets/pcset.py:273-278 | strictly ascending, with the same elements and length |
| PcSets.SortUnique | pcsets/pcset.py:273-278 | sort() is the only ascending arrangement of the elements |
| PcSets.SortOfAscending | pcsets/pcset.py:273-278 | an ascending set is its own sort |
| PcSets.Complement | pcsets/pcset.py:256-265 | the loop yields exactly the pitch classes not in the set, ascending; the two lengths add up to 12 |
| PcSets.AbsentLength | pcsets/pcset.py:256-265 | every pitch class below k is counted exactly once, as present or as absent |
| PcSets.ComplementOf | pcsets/pcset.py:256-265 | disjoint from the set, covering the rest of 0..11; the lengths add up to 12 |
| PcSets.ComplementInvolution | pcsets/pcset.py:256-265 | the complement of the complement is the sorted set |
| PcSets.Rotation | pcsets/pcset.py:280-293 | a rearrangement of the set; a set of length <= 1 is unchanged |
| PcSets.RotationMoves | pcsets/pcset.py:280-293 | shift(n) moves element i to position (i + n) mod len: a rightward rotation by n mod len |
| PcSets.Shift | pcsets/pcset.py:280-293 | moving the last element to the front n mod len times gives the rotation |
| PcSets.ShiftLast | pcsets/pcset.py:280-293 | element k is the last element of shift(len - 1 - k) |
| PcSets.Zero | pcsets/pcset.py:295-304 | a non-empty set starts on 0 and every element moves by minus the first; the empty set stays empty |
| PcSets.ZeroTranspose | pcsets/pcset.py:295-304 | transposing first does not change zero() |
| PcSets.ZeroIsTransposition | pcsets/pcset.py:295-304 | zero() is T(-s[0]) |
| PcSets.Encoding | pcsets/pcset.py:146-157 | the bit mask of the members, below 4096 |
| PcSets.BinaryValue | pcsets/pcset.py:146-157 | the accumulating loop computes the encoding |
| PcSets.EncodingInjective | pcsets/pcset.py:146-157 | equal encodings exactly when equal members |
| PcSets.FirstMin | pcsets/pcset.py:321-328 | the first index of a least score |
| PcSets.Champion | pcsets/pcset.py:321-328 | the contest winner has a least score; on a tie with the first champion, shift(size - 1) wins; otherwise it is the earliest least |
| PcSets.ChampionOfTies | pcsets/pcset.py:321-328 | when every rotation ties, shift(size - 1) is kept |
| PcSets.NormalForm | pcsets/pcset.py:306-328 | sets of length < 2 are unchanged; otherwise a rotation of sort() with the same members |
| PcSets.NormalFormIsLeast | pcsets/pcset.py:306-328 | the normal form's zero() has the least encoding among the zero()s of all rotations of sort() |
| PcSets.AllShifts | pcsets/pcset.py:318 | the list holds shift(n) of the sorted set for every n |
| PcSets.Normal | pcsets/pcset.py:306-328 | the champion loop returns the normal form |
| PcSets.Contest | pcsets/pcset.py:321-328 | with the popped last rotation as first champion, the loop returns the entrant at the first strict minimum of the scores in the order met |
| PcSets.Challenge | pcsets/pcset.py:323-327 | a challenger takes over only with a strictly smaller score, so a tie keeps the earlier champion; the champion stays the first strict minimum so far |
| PcSets.NormalOfAugmented | pcsets/pcset.py:321-328 | normal() of [0, 4, 8] is [4, 8, 0]: the tie goes to the last rotation |
| PcSets.ParseExample | pcsets/pcset.py:199-215 | '7B25' builds [7, 11, 2, 5] |
| PcSets.NormalExample | pcsets/pcset.py:306-328 | normal() of [7, 11, 2, 5] is [11, 2, 5, 7] |
| PcSets.Reduced | pcsets/pcset.py:330-359 | same length, starting on 0 |
| PcSets.Prime | pcsets/pcset.py:361-378 | the reduced form of the set or of its inversion with the smaller encoding; the inversion's on a tie; same length, starting on 0 |
| PcSets.IntervalClass | pcsets/pcset.py:382-401 | the distance of two pitch classes folded into 1..6 |
| PcSets.IntervalVector | pcsets/pcset.py:382-401 | six counts, one per interval class |
| PcSets.IntervalVectorCounts | pcsets/pcset.py:382-401 | entry k is the number of unordered pairs of members lying in interval class k + 1 |
| PcSets.TallyCounts | pcsets/pcset.py:382-401 | the tally over any set w counts, in slot k, the pairs of w in interval class k + 1 |
| PcSets.RowCounts | pcsets/pcset.py:395-400 | one note's row counts, in slot k, the other notes lying interval class k + 1 away |
| PcSets.PairsSplit | pcsets/pcset.py:382-401 | the pairs of a set plus one note are the old pairs and, disjoint from them, the new note's pairs |
| PcSets.IntervalVectorOfEmpty | pcsets/pcset.py:382-401 | the empty set's vector is all zeros |
| PcSets.Ivec | pcsets/pcset.py:382-401 | the popping loop computes the interval vector |
| PcSets.AddIntervals | pcsets/pcset.py:392-399 | the inner loop adds one count per other note, in its interval class |
| PcSets.IntervalVectorTotal | pcsets/pcset.py:382-401 | each unordered pair adds exactly one count: 2 * sum == n(n - 1) |
| PcSets.TallySum | pcsets/pcset.py:382-401 | the tally over a set with n notes counts n(n - 1)/2 pairs in all |
| PcSets.CommonToneVector | pcsets/pcset.py:403-418 | twelve counts of the pairwise sums mod 12 |
| PcSets.RawTable | pcsets/pcset.py:411-414 | the nested loop builds the table of sums |
| PcSets.TallyEntries | pcsets/pcset.py:415-417 | entry k counts how often k occurs in the table |
| PcSets.Cvec | pcsets/pcset.py:403-418 | the two loops compute the common-tone vector |
| PcSets.CommonTones | pcsets/pcset.py:403-418 | cvec[n] is the size of the intersection of the set with TnI(n) |
| CanonicalForms.ReducedTranspose | pcsets/pcset.py:330-359 | every transposition of a set has the same reduced form |
| CanonicalForms.ReducedAscending | pcsets/pcset.py:330-359 | the reduced form is ascending |
| CanonicalForms.PrimeAscending | pcsets/pcset.py:361-378 | the prime form is ascending |
| CanonicalForms.PrimeTranspose | pcsets/pcset.py:361-378 | transposed sets share a prime form |
| CanonicalForms.PrimeInvert | pcsets/pcset.py:361-378 | inverted sets share a prime form |
| CanonicalForms.PrimeTnI | pcsets/pcset.py:361-378 | TnI-related sets share a prime form |
| CanonicalForms.PrimeMembers | pcsets/pcset.py:361-378 | the prime form holds the members of a transposition or a TnI of the set |
| CanonicalForms.SamePrimeRelated | pcsets/pcops.py:204-217 | sets with the same prime form are related by some Tn or TnI, order aside |
| CanonicalForms.ReducedOfMembers | pcsets/pcset.py:330-359 | sequences with the same members have the same reduced form |
| CanonicalForms.PrimeOfMembers | pcsets/pcset.py:361-378 | sequences with the same members have the same prime form |
| PcOps.AtMostTwelve | pcsets/pcset.py:199-215 | a pitch class set holds at most 12 pitch classes |
| PcOps.Hits | pcsets/pcops.py:133-152 | the n below k for which the relation passes, ascending |
| PcOps.HitsMembers | pcsets/pcops.py:133-152 | n is a hit exactly when n is below k and the relation passes for n |
| PcOps.HitsStep | pcsets/pcops.py:133-152 | one more n is appended exactly when it passes |
| PcOps.OpSetOf | pcsets/pcops.py:133-152 | an unknown polarity is OpSetError; otherwise Tn and TnI are the ascending n in 0..11 that pass |
| PcOps.NewOpSet | pcsets/pcops.py:133-152 | the constructor's loops produce OpSetOf |
| PcOps.ModeHits | pcsets/pcops.py:141-152 | one mode's loop over n in 0..11 collects the passing n, or fails on an unknown polarity |
| PcOps.PassesNormal | pcsets/pcops.py:141-152 | under normal polarity the test is the relation on T(n) or TnI(n) of a |
| PcOps.PassesReverse | pcsets/pcops.py:141-152 | under reverse polarity the test is the relation on a and T(n) or TnI(n) of b |
| PcOps.Any | pcsets/pcops.py:160-161 | any: at least one of the Tn and TnI lists is non-empty |
| PcOps.AnyOf | pcsets/pcops.py:160-161 | any holds exactly when one of the 24 operations passes |
| PcOps.OpSetStr | pcsets/pcops.py:167-173 | the string is 'None' exactly when no operation matched |
| PcOps.OpSetStrWords | pcsets/pcops.py:167-173 | otherwise it splits into exactly the words T(n) for each n of the Tn branch in order, then T(n)I for each n of the TnI branch |
| PcOps.OneOfEach | pcsets/pcops.py:167-173 | with one operation on each branch: the string 'T(x) T(y)I' |
| PcOps.OpSetStrExample | pcsets/pcops.py:167-173 | the strings 'T(7) T(9)I', 'T(5) T(9)I' and 'None' |
| PcOps.ExactEquality | pcsets/pcops.py:188-193 | exact_equality: the same elements in the same order |
| PcOps.SetEquality | pcsets/pcops.py:196-201 | set_equality: the same members, order aside |
| PcOps.SetEqualityIsSameSort | pcsets/pcops.py:196-201 | set equality holds exactly when the sorted forms are identical |
| PcOps.SamePrime | pcsets/pcops.py:204-217 | same_prime: the prime forms are exactly equal |
| PcOps.SamePrimeIff | pcsets/pcops.py:204-217 | same prime form exactly when related by some Tn or TnI, order aside |
| PcOps.OpPath | pcsets/pcops.py:222-254 | both branches are empty when the prime forms differ |
| PcOps.OpPathTn | pcsets/pcops.py:222-254 | the Tn branch is exactly the n with T(n) of a equal to b as sets |
| PcOps.OpPathTnI | pcsets/pcops.py:222-254 | the TnI branch is exactly the n with TnI(n) of a equal to b as sets |
| PcOps.OpPathAny | pcsets/pcops.py:246-254 | the asserted invariant: some operation is found exactly when the primes agree |
| PcOps.OpPathOfEmpty | pcsets/pcops.py:222-254 | two empty sets give 0..11 on both branches |
| PcOps.RelTn | pcsets/pcops.py:264-278 | rel_Tn: the Tn branch of op_path is non-empty |
| PcOps.RelTnI | pcsets/pcops.py:281-287 | rel_TnI: the TnI branch of op_path is non-empty |
| PcOps.RelTnIff | pcsets/pcops.py:264-278 | rel_Tn holds exactly when some T(n) of a equals b as sets |
| PcOps.RelTnIIff | pcsets/pcops.py:281-287 | rel_TnI holds exactly when some TnI(n) of a equals b as sets |
| PcOps.Symmetry | pcsets/pcops.py:257-261 | the count of cvec entries equal to the size, at most 12 |
| PcOps.CvecFull | pcsets/pcops.py:257-261 | cvec[n] is the size exactly when TnI(n) maps the set onto itself |
| PcOps.SymmetryAxes | pcsets/pcops.py:257-261 | symmetry counts the inversion axes that map the set onto itself |
| PcOps.SymmetryOfEmpty | pcsets/pcops.py:257-261 | the empty set has symmetry 12 |
| PcOps.Union | pcsets/pcops.py:292-297 | the members of both sets |
| PcOps.UnionBuilds | pcsets/pcops.py:292-297 | union is the constructor applied to the concatenation |
| PcOps.UnionKeepsFirst | pcsets/pcops.py:292-297 | the union keeps a, in its order, at the front |
| PcOps.Common | pcsets/pcops.py:300-304 | exactly the shared members, ascending |
| PcOps.CommonCvec | pcsets/pcops.py:300-304 | the common tones of a set and its TnI(n) are counted by cvec[n] |
| PcOps.CommonOfEmpty | pcsets/pcops.py:292-304 | the empty set shares nothing, and the union of two empty sets is empty |
| PcOps.IsComplement | pcsets/pcops.py:309-313 | is_complement: the union of the two sets has 12 members |
| PcOps.IsComplementIff | pcsets/pcops.py:309-313 | a 12-element union exactly when together the sets hold every pitch class |
| PcOps.IsComplementOfEmpty | pcsets/pcops.py:309-313 | the empty set and the chromatic scale are complements |
| PcOps.IsPrimeComplement | pcsets/pcops.py:316-321 | is_prime_complement: a's complement has the same prime form as b |
| PcOps.IsPrimeComplementIff | pcsets/pcops.py:316-321 | b is some Tn or TnI of a's complement, order aside |
| PcOps.IsPrimeComplementOfEmpty | pcsets/pcops.py:316-321 | the chromatic scale is the prime complement of the empty set |
| PcOps.SubsetOf | pcsets/pcops.py:324-329 | subset_of: every member of b is a member of a |
| PcOps.SubsetOfSize | pcsets/pcops.py:324-329 | a set cannot contain a larger one |
| PcOps.Harmonize | pcsets/pcops.py:332-350 | the empty result when a is smaller than b |
| PcOps.HarmonizeTn | pcsets/pcops.py:332-350 | the Tn branch is exactly the n with b inside T(n) of a |
| PcOps.HarmonizeTnI | pcsets/pcops.py:332-350 | the TnI branch is exactly the n with b inside TnI(n) of a |
| PcOps.FitIn | pcsets/pcops.py:353-372 | the empty result when a is smaller than b |
| PcOps.FitInTn | pcsets/pcops.py:353-372 | the Tn branch is exactly the n with T(n) of b inside a |
| PcOps.FitInTnI | pcsets/pcops.py:353-372 | the TnI branch is exactly the n with TnI(n) of b inside a |
| PcOps.PrimeSubsetOf | pcsets/pcops.py:375-381 | prime_subset_of: the fit_in result has some operation |
| PcOps.PrimeSubsetOfIff | pcsets/pcops.py:375-381 | some T(n) or TnI(n) of b lies inside a |
| PcOps.Rp | pcsets/pcops.py:386-393 | false for unequal sizes and for the empty set |
| PcOps.RpIff | pcsets/pcops.py:386-393 | equal sizes and exactly one tone of a missing from b |
| PcOps.RpSymmetric | pcsets/pcops.py:386-393 | Rp is symmetric |
| PcOps.RpPath | pcsets/pcops.py:396-411 | the empty result for unequal sizes |
| PcOps.RpPathTn | pcsets/pcops.py:396-411 | the Tn branch is exactly the n with Rp(T(n) of a, b) |
| PcOps.RpPathTnI | pcsets/pcops.py:396-411 | the TnI branch is exactly the n with Rp(TnI(n) of a, b) |
| PcOps.RpPrime | pcsets/pcops.py:414-421 | Rp_prime: the Rp_path result has some operation |
| PcOps.RpPrimeIff | pcsets/pcops.py:414-421 | some T(n) or TnI(n) of a is Rp-related to b |
| PcOps.RpPrimeOfEmpty | pcsets/pcops.py:414-421 | two empty sets are not Rp_prime-related |
| PcOps.R0 | pcsets/pcops.py:424-431 | R0: one size, and the interval vectors differ at every place |
| PcOps.SimilarityOf | pcsets/pcops.py:434-455 | difference2 holds exactly when the sizes agree and the interval vectors differ in exactly two places; interchange holds exactly when, besides, each of those places holds the other's value |
| PcOps.MisfitsTwo | pcsets/pcops.py:446-452 | two misfits are the values at the two differing places, the lower place first |
| PcOps.R1OrR2 | pcsets/pcops.py:434-455 | the misfit loop computes SimilarityOf |
| PcOps.R1 | pcsets/pcops.py:458-464 | R1: the interchange flag of R1_or_R2 |
| PcOps.R2 | pcsets/pcops.py:467-474 | R2: the difference2 flag of R1_or_R2 without interchange |
| PcOps.Zpair | pcsets/pcops.py:477-483 | Zpair: the interval vectors are equal |
| PcOps.MaximumSimilarity | pcsets/pcops.py:458-474 | R1 and R2 are never both true; either needs one size and exactly two differing places |
| PcOps.ZpairNotSimilar | pcsets/pcops.py:424-483 | a Z pair is related by none of R0, R1 and R2 |
| PcOps.SimilarityOfEmpty | pcsets/pcops.py:424-483 | two empty sets are a Z pair, and none of R0, R1, R2 holds |
| ToneRows.NewRow | pcsets/tonerow.py:271-282 | a bad definition passes its error on; fewer than 12 pitch classes is IncompleteRowError; otherwise the row is the built set |
| ToneRows.RowIsPermutation | pcsets/tonerow.py:271-282 | every row holds all twelve pitch classes |
| ToneRows.RowOfRow | pcsets/tonerow.py:271-282 | building a row from a row gives it back |
| ToneRows.TransposeTo | pcsets/tonerow.py:241-248 | the transposition of s that starts on m |
| ToneRows.CorrectTransposition | pcsets/tonerow.py:241-248 | Ok exactly when n moderates; the result starts on moderate(n) and is a transposition of s |
| ToneRows.Apply | pcsets/tonerow.py:284-336 | each form starts on moderate(n) and is a transposition of its base form |
| ToneRows.P | pcsets/tonerow.py:284-295 | starts on moderate(n); a transposition of the row |
| ToneRows.R | pcsets/tonerow.py:297-308 | starts on moderate(n); a transposition of the reversed row |
| ToneRows.I | pcsets/tonerow.py:310-321 | starts on moderate(n); a transposition of the inversion |
| ToneRows.RI | pcsets/tonerow.py:323-336 | starts on moderate(n); a transposition of the inverted reverse |
| ToneRows.RowShift | pcsets/tonerow.py:338-356 | shift(i): the PcSet shift of the row, as a row |
| ToneRows.RowShiftMoves | pcsets/tonerow.py:338-356 | shift(i) moves element k to (k + i) mod 12 |
| ToneRows.RowShiftModulo | pcsets/tonerow.py:338-356 | only the shift modulo 12 matters |
| ToneRows.RotationTranspose | pcsets/tonerow.py:338-356 | shifting commutes with transposition |
| ToneRows.RotationInvert | pcsets/tonerow.py:338-356 | shifting commutes with inversion |
| ToneRows.RotationReverse | pcsets/tonerow.py:338-356 | shifting the retrograde by n is the retrograde of the shift by -n |
| ToneRows.Rotate | pcsets/tonerow.py:358-379 | the shifted row transposed to start on moderate(n) |
| ToneRows.ContourOf | pcsets/tonerow.py:440-443 | twelve steps, contour[i] == (row[(i+1) % 12] - row[i]) % 12 |
| ToneRows.Contour | pcsets/tonerow.py:440-443 | the loop computes the contour |
| ToneRows.ContourOfTransposed | pcsets/tonerow.py:409-430 | a transposition has the same contour |
| ToneRows.ContourOfInvert | pcsets/tonerow.py:409-430 | the inversion's contour is 12 minus the contour, mod 12 |
| ToneRows.ContourOfReversed | pcsets/tonerow.py:409-430 | the retrograde's contour is the contour reversed and negated mod 12 |
| ToneRows.ContourOfShifted | pcsets/tonerow.py:409-430 | shifting a row by n rotates its contour by n |
| ToneRows.ContourOfP | pcsets/tonerow.py:409-430 | P(n) keeps the contour |
| ToneRows.ContourOfI | pcsets/tonerow.py:409-430 | I(n)'s contour is (12 - c) % 12 of the row's |
| ToneRows.ContourOfR | pcsets/tonerow.py:409-430 | R(n)'s contour is the row's read backwards, each interval inverted |
| ToneRows.ContourOfRI | pcsets/tonerow.py:409-430 | RI(n)'s contour is the row's read backwards |
| ToneRows.ContourOfChromatic | pcsets/tonerow.py:381-443 | the ascending chromatic row gives all 1s |
| ToneRows.ContourDeterminesRow | pcsets/tonerow.py:381-443 | the first element and the contour determine the row |
| ToneRows.Start | pcsets/tonerow.py:446-460 | the zero-started form starts on 0 |
| ToneRows.StartTransposed | pcsets/tonerow.py:446-460 | the zero-started form is a transposition of the form |
| ToneRows.StartIsZero | pcsets/tonerow.py:446-460 | starting a form on 0 is zero() of that form |
| ToneRows.Equivalent | pcsets/tonerow.py:446-460 | the test of P(0), I(0), R(0) and RI(0) of a against P(0) of b decides EquivalentOf |
| ToneRows.NoForm | pcsets/tonerow.py:446-460 | when none of the four tries matches, no form matches |
| ToneRows.FamilyEquivalent | pcsets/tonerow.py:446-460 | a is equivalent to every P, R, I and RI form of itself at every n |
| ToneRows.EquivalentIsFamily | pcsets/tonerow.py:446-460 | conversely, an equivalent row is some form of a at some n in 0..11 |
| ToneRows.RotequivFromIff | pcsets/tonerow.py:463-472 | the search from shift k on holds exactly when some later shift is equivalent |
| ToneRows.AnyFromIff | pcsets/tonerow.py:463-472 | the upward search from a start index succeeds exactly when some index at or above it, below 12, satisfies the test |
| ToneRows.Rotequiv | pcsets/tonerow.py:463-472 | the loop over the twelve shifts decides RotequivOf |
| ToneRows.RotequivIsShiftedFamily | pcsets/tonerow.py:463-472 | a rotationally equivalent row is a form at some n of some shift of a |
| ToneRows.ShiftedForm | pcsets/tonerow.py:338-356 | shifting a form is the same form of a shifted row |
| ToneRows.FamilyRotequiv | pcsets/tonerow.py:463-472 | every shift of every family member of a is rotationally equivalent to a |
| ToneRows.SwappedEndNotRotequiv | pcsets/tonerow.py:463-472 | the chromatic row is not rotationally equivalent to itself with the last two elements swapped |
| ToneRows.StepwiseForm | pcsets/tonerow.py:381-443 | a row moving by semitones keeps doing so in every form |
| ToneRows.StepwiseStart | pcsets/tonerow.py:446-460 | and in every zero-started form |
| ToneRows.StepwiseRotation | pcsets/tonerow.py:338-356 | and in every shift |
| NoteOps.ScaleIndex | pcsets/noteops.py:181-184 | the index of the character in the C scale string, or -1 when absent |
| NoteOps.Offset | pcsets/noteops.py:190-196 | flats subtract 1, sharps add 1, the natural sign adds nothing |
| NoteOps.PitchclassOf | pcsets/noteops.py:169-200 | longer than two characters is NoteFormatError; a first character not in C..B is IllegalNoteError; an unknown modifier is IllegalModifierError; otherwise letter value plus sign offset |
| NoteOps.LetterValues | pcsets/noteops.py:169-200 | C D E F G A B read as 0 2 4 5 7 9 11 |
| NoteOps.AccidentalOffsets | pcsets/noteops.py:188-199 | a signed note reads as its letter plus the sign's offset |
| PcOps.Words | pcsets/noteops.py:222-226 | every word of split() is non-empty and free of spaces |
| PcOps.WordsOfJoin | pcsets/noteops.py:222-226 | splitting words joined by spaces gives the words back |
| PcOps.WordsOfEmpty | pcsets/noteops.py:222-226 | splitting the empty string gives no words |
| NoteOps.Pitchclasses | pcsets/noteops.py:226 | Ok exactly when every word reads; the values in order; otherwise the first bad word's error |
| NoteOps.IntsBuild | pcsets/noteops.py:226 | building from integers succeeds and holds their values mod 12 |
| NoteOps.Pcfor | pcsets/noteops.py:203-226 | a non-string is NonStringError; Ok exactly when every word reads; the result is the words' values mod 12 in order, each kept at its first occurrence |
| NoteOps.WordValues | pcsets/noteops.py:203-226 | when every word reads, the set holds exactly the values mod 12 |
| NoteOps.WordFails | pcsets/noteops.py:203-226 | when reading the words ends in an error, some word does not read |
| NoteOps.PcforOfEmpty | pcsets/noteops.py:203-226 | '' yields the empty set |
| NoteOps.PcforExample | pcsets/noteops.py:203-226 | 'A B C D E F G' gives [9, 11, 0, 2, 4, 5, 7] |
| NoteOps.BlackKeys | pcsets/noteops.py:85 | the pitch classes without a letter are 1, 3, 6, 8, 10 |
| NoteOps.Flat | pcsets/noteops.py:229-236 | a natural is its letter; a black key is a letter and 'b' |
| NoteOps.Sharp | pcsets/noteops.py:239-246 | a natural is its letter; a black key is a letter and '#' |
| NoteOps.FlatRoundTrip | pcsets/noteops.py:229-236 | reading the flat name gives the pitch class back |
| NoteOps.SharpRoundTrip | pcsets/noteops.py:239-246 | reading the sharp name gives the pitch class back |
| NoteOps.Penalty | pcsets/noteops.py:255-260 | 0 for at most one occurrence, otherwise -1 or -5 |
| NoteOps.ConflictOf | pcsets/noteops.py:249-262 | between -35 and 0; 0 exactly when no letter occurs twice |
| NoteOps.Conflict | pcsets/noteops.py:249-262 | the loop over the letters computes ConflictOf |
| NoteOps.Clashes | pcsets/noteops.py:271-276 | fewer than the number of words; 0 exactly when no neighbours share a letter |
| NoteOps.NeighborConflictOf | pcsets/noteops.py:265-277 | at most 0, above minus the word count; 0 exactly when no neighbours share a first letter |
| NoteOps.NeighborConflict | pcsets/noteops.py:265-277 | the loop computes NeighborConflictOf |
| NoteOps.Popularity | pcsets/noteops.py:280-292 | the RANKING index of a listed word (Ranking[p] is the word), otherwise 0 |
| NoteOps.PopularityOf | pcsets/noteops.py:280-292 | between 0 and 9 per word |
| NoteOps.PopularityContest | pcsets/noteops.py:280-292 | the loop computes PopularityOf |
| NoteOps.TopBounds | pcsets/noteops.py:301-316 | the winning score bounds every score and is attained |
| NoteOps.KeepMembers | pcsets/noteops.py:301-316 | the winners' circle holds exactly the items with the winning score |
| NoteOps.EliminatedWinners | pcsets/noteops.py:295-318 | non-empty; an item is returned exactly when it attains the maximum; nothing is added |
| NoteOps.Eliminate | pcsets/noteops.py:295-318 | the pop-and-challenge loop computes EliminateOf |
| NoteOps.SpellingsCount | pcsets/noteops.py:354-367 | exactly 2^k candidates for k black keys |
| NoteOps.SpellingsSound | pcsets/noteops.py:354-367 | every candidate names the pitch classes in order, naturals by letter |
| NoteOps.SpellingsComplete | pcsets/noteops.py:354-367 | every such naming is a candidate |
| NoteOps.Options | pcsets/noteops.py:354-367 | the doubling loop builds SpellingsOf |
| NoteOps.LexTotal | pcsets/noteops.py:389 | the string order is total |
| NoteOps.LexTransitive | pcsets/noteops.py:389 | the string order is transitive |
| NoteOps.LexAntisymmetric | pcsets/noteops.py:389 | the string order is antisymmetric |
| NoteOps.LexFirst | pcsets/noteops.py:389-390 | the first of the sorted strings: a member no greater than any other |
| NoteOps.OptimalStep | pcsets/noteops.py:377-383 | each round keeps exactly the candidates best under the next rule |
| NoteOps.Narrow | pcsets/noteops.py:370-390 | the round loop and the sort give the least optimal candidate |
| NoteOps.MinConflict | pcsets/noteops.py:321-390 | the answer is the least candidate among those best by conflict, then neighbours, then popularity |
| NoteOps.MinConflictLeastConflict | pcsets/noteops.py:321-390 | the answer is a candidate, and no candidate has less conflict |
| NoteOps.MinConflictUnique | pcsets/noteops.py:321-390 | the answer is determined by the set |
| NoteOps.StyledJoin | pcsets/noteops.py:452-454 | the sign replacement can be done word by word |
| NoteOps.StyledName | pcsets/noteops.py:452-454 | the replacement keeps a name readable, with the same pitch class |
| NoteOps.SpellingRoundTrip | pcsets/noteops.py:442-455 | reading any spelling back, with or without unicode signs, gives the set |
| NoteOps.AnswerIsSpelling | pcsets/noteops.py:369-390 | the minconflict answer is a joined spelling |
| NoteOps.FlatNames | pcsets/noteops.py:445-446 | the flat names of the classes joined by spaces |
| NoteOps.SharpNames | pcsets/noteops.py:447-448 | the sharp names of the classes joined by spaces |
| NoteOps.Notes | pcsets/noteops.py:442-455 | a bad definition passes its error on; 'b' and '#' join the flat and sharp names; otherwise minconflict; signs replaced for unicode; pcfor of the answer is the set |
| NoteOps.NotesOfEmpty | pcsets/noteops.py:442-455 | every preference names the empty set with '' |
| Catalog.Bits | pcsets/catalog.py:88-91 | ascending, exactly the set bits of n below k |
| Catalog.PossibleSet | pcsets/catalog.py:88-92 | the bit-test loop builds BitSet(n) |
| Catalog.BitSetEncoding | pcsets/catalog.py:86-92 | binaryvalue of the set for n is n, for n in 0..4095 |
| Catalog.BitSetOfEncoding | pcsets/catalog.py:86-92 | every set is enumerated, ascending, at its binaryvalue |
| Catalog.AllPossible | pcsets/catalog.py:86-92 | the sets for 0..4095 in order |
| Catalog.PrimeEnumerated | pcsets/catalog.py:86-92 | the prime of every set is the prime of an enumerated set |
| Catalog.AnyMatch | pcsets/catalog.py:95-99 | true exactly when some entry of the page is exactly equal |
| Catalog.FileKeepsShape | pcsets/catalog.py:161-165 | filing keeps pages to their sizes and free of repeats, adds only p, and leaves p on its page |
| Catalog.FiledShape | pcsets/catalog.py:157-165 | page k holds only sets of size k, and no page repeats an entry |
| Catalog.FiledSound | pcsets/catalog.py:157-165 | every entry is the prime of an enumerated set |
| Catalog.FiledComplete | pcsets/catalog.py:157-165 | the prime of every enumerated set is on its page |
| Catalog.RebuiltPages | pcsets/catalog.py:155-165 | page k holds exactly the prime forms of size k |
| Catalog.FlattenLength | pcsets/catalog.py:202-211 | iteration yields as many entries as the pages hold |
| Catalog.FlattenMembers | pcsets/catalog.py:202-205 | an entry is yielded exactly when some page holds it |
| Catalog.FlattenOrdered | pcsets/catalog.py:202-205 | pages filed by size are yielded in ascending size, with no entry twice |
| Catalog.SetCatalog.constructor | pcsets/catalog.py:177-183 | the new catalog is the rebuilt one |
| Catalog.SetCatalog.Rebuild | pcsets/catalog.py:155-165 | 13 empty pages, then every enumerated prime filed unless present |
| Catalog.SetCatalog.Page | pcsets/catalog.py:189-200 | page n, counting from the end for negative n, and None, standing for the IndexError, outside -13..12 |
| Catalog.SetCatalog.PageHoldsPrimes | pcsets/catalog.py:189-200 | page n of the rebuilt catalog holds exactly the prime forms of size n |
| Catalog.SetCatalog.Iterate | pcsets/catalog.py:202-205 | the nested loop yields the entries of pages 0 to 12 in order |
| Catalog.SetCatalog.Len | pcsets/catalog.py:207-211 | the sum of the page sizes, which is the number of entries iterated |
| Catalog.SetCatalog.EntriesArePrimes | pcsets/catalog.py:202-205 | the rebuilt catalog yields every prime form, once, in ascending size |

## Left out

- Catalog persistence: `_rewrite`, `_retrieve`, the pickle file and the `store`/`failsafe` IOError handling are file I/O. The constructor always rebuilds.
- `showcatalog`: it only prints.
- The exact per-page counts of the catalog (1, 1, 6, 12, 29, 38, 50, 38, 29, 12, 6, 1, 1; 224 in all): they need the prime forms of all 4096 sets evaluated. The model proves which sets the pages hold, not how many there are.
- `randomrow`: it depends on a pseudorandom shuffle.
- Float tokens and float transposition intervals: only integer and character tokens are modelled.
- Python 2 duck typing:
  - the definition is a tagged value (`Items` or `NonIterable`), and the `pcfor` input is `Text` or `NotText`;
  - whether `notes` writes unicode signs is a boolean flag in place of the unicode type tests;
  - strings are sequences of characters, and a unicode sign is one character.
- The `PERFECTION_TESTING` debug flag and its exception: the flag is off in the source.
- Exception message formatting: only the error kind and its data are kept.
- The `__main__` demonstration, `setup.py`, `runtest.py` and the test files.
- The shorthands `I` and `T` of `PcSet`: they are `invert` and `transpose` under other names. `TnI` and `Ixy` are modelled.
- `ToneRows` takes integer or character tokens for n; other Python types are not modelled.
- NoteOps.PitchclassOf: requires a non-empty note. `pitchclass_of('')` raises IndexError, and `split()` never yields an empty word.
- PcOps.Words: `split()` is modelled on the ASCII whitespace characters only.
- NoteOps.Eliminate: the scoring function is one of the three contests, not an arbitrary callable. The caller's list is not emptied by `pop`: the model returns a new sequence.
- NoteOps.LexFirst: `options.sort(); options[0]` is modelled as the least string in code-point order, without the sorted list.
- PcOps.Common: the result is ascending. Python's set order is unspecified; callers only use its size.
- OpSet relations: the model passes one of the three relations the module uses (`SetEq`, `Contains` and `OneToneApart`), not an arbitrary callable.
- The worked examples of minconflict (`'A# B C Db'`, `'A# B A'`, `'A Bb B'`) and the chromatic flat names `'C Db D Eb E F Gb G Ab A Bb B'` are not proved. They would need the scores of literal candidate lists evaluated. The general properties behind them are proved: the answer is optimal, unique, and a spelling; and the flat names are the joined `flat` names.
- The concrete examples of `prime()` (`'9B12468'` to `'013568A'`) and of the interval and common-tone vectors are not proved: evaluating them costs more than the general statements they illustrate.
