# LogicMaster tabulation core in Dafny

LogicMaster simplifies Boolean functions with the Quine–McCluskey
tabulation method. This project models the three files that do the work.

- `src/utils/minterm.js` defines the `Minterm` record. A Minterm holds the
  input values it stands for and a pattern of '0', '1' and '-' digits. It
  also has a `used` flag, which the tabulation sets when it merges the
  Minterm with another one.
- `src/utils/quinemccluskey.js` defines the `QuineMcCluskey` class. Its work
  runs in five steps:
  1. It expands `⊕` and `≡` in the variable names.
  2. It groups the values by their count of ones.
  3. It merges adjacent groups round after round. The Minterms that are
     never merged become the prime implicants.
  4. It picks the essential prime implicants and searches subsets of the
     remaining implicants for a smallest cover.
  5. It renders the cover as a sum of products, using `¬`, `⋀` and ` ⋁ `.
- `src/utils/qm.js` is a second, string-based implementation. It has
  `quineMcCluskey(minterms, numVars)` and
  `convertToReadableExpression(minterm, variables)`.

The Dafny modules follow that structure.

| module | contents |
|---|---|
| `Minterms` | The class `Minterm`, with immutable `values` and `value` and a mutable `used`. |
| `Tabulation` | The class `QuineMcCluskey` and the heap-mutating merge methods. |
| `Terms`, `Cover`, `Render` | The specification functions and lemmas that those methods are proved against. |
| `Implicants` | Implicants and prime implicants of the function a value list defines, and the round invariants that show the tabulation finds exactly the prime implicants. |
| `QmStrings` | `qm.js`. Its loops are methods proved equal to folds over a round state (`CombinePair`, `CombineRow`, `CombineBlock`, `CombineKeys`). Lemmas relate those folds to `Run`, a description of the rounds on sets, and the results are stated on `Run`. |
| `Patterns` | Pattern strings: mismatches, merges, coverage, and counts of ones and dashes. Both implementations use them. |
| `Binary`, `Strings`, `Wrappers` | Binary and decimal text, `join`, `indexOf`, `replace`, de-duplication, and `Option`/`Result`. |

The main results are these:
- The prime implicants of a run cover every value handed to the tabulation.
  They hold only those values, and each has a well-formed pattern.
- When there are variables, no two prime implicants are equal Minterms.
  Each one stands for exactly the inputs its pattern matches, its pattern is
  a prime implicant of the function, and every prime implicant of the
  function is the pattern of one of them.
- A Minterm that survives a round has no merge partner in an adjacent group.
- The essential pass picks exactly the sole covering implicants.
- The subset search returns the first smallest accepted subset. Its full
  mask is never needed.
- The solution covers every required value, and it is drawn from the prime
  implicants. The constructor, `Solve` and `GetFunction` name those prime
  implicants, so the stored text is the rendering of that solution.
- The rendered text is "0", "1" or the ` ⋁ ` join of one `⋀` product per
  implicant that has a literal.
- For `qm.js`, the rounds are described on sets. A round is stuck when some
  adjacent pair of keys has its upper group but not its lower one; that is
  the TypeError path, and it happens exactly when some round is stuck.
  Otherwise the primes are, as a set, every combination made in every round
  together with the padded minterms that the first round does not use. They
  are distinct and cover every padded minterm. With at least one variable
  each is an implicant of the minterms. Combinations that merge again in a
  later round stay in the set, so not every member is a prime implicant.
  The result is the list of essential primes when it is non-empty, otherwise
  all primes.

## Model

| member | source | states |
|---|---|---|
| Minterms.Minterm.constructor | src/utils/minterm.js:9-13 | A new Minterm holds the given values and pattern and is not used. |
| Minterms.Minterm.ToString | src/utils/minterm.js:20-23 | The text is `m(`, then the decimal values joined with ", ", then `) = ` and the pattern. Reading it back gives the same values and pattern. |
| Minterms.ToStringReadsBack | src/utils/minterm.js:20-23 | Any values and any pattern, rendered this way, read back as themselves. |
| Minterms.JoinedDecimals | src/utils/minterm.js:21 | The values joined with ", " read back as the values, in order. |
| Minterms.JoinedDecimalsCharset | src/utils/minterm.js:21 | The joined values hold only digits, commas and spaces, so no `)`. |
| Minterms.DecimalTexts | src/utils/minterm.js:21 | One decimal text per value, each reading back as that value. |
| Minterms.Minterm.Equals | src/utils/minterm.js:28-39 | True exactly when the other is a Minterm with the same pattern and the same values in the same order. |
| Minterms.EqualsIsReflexiveAndSymmetric | src/utils/minterm.js:28-39 | Equality of Minterms is reflexive and symmetric. |
| Minterms.Minterm.GetValues | src/utils/minterm.js:44-46 | Returns the values. |
| Minterms.Minterm.GetValue | src/utils/minterm.js:51-53 | Returns the pattern. |
| Minterms.Minterm.IsUsed | src/utils/minterm.js:58-60 | Returns the `used` flag. |
| Minterms.Minterm.Use | src/utils/minterm.js:65-67 | Afterwards the Minterm is used; nothing else changes. |
| Minterms.Minterm.Combine | src/utils/minterm.js:72-91 | Null exactly when the patterns differ in more than one place. Otherwise the result is a fresh, unused Minterm with the merged pattern and the joined values, and it agrees with all its values when both operands do. |
| Minterms.MergeKeepsAgreement | src/utils/minterm.js:76-90 | Merging two equal-length patterns keeps every value of both operands in agreement with the merged pattern. |
| Patterns.Merge | src/utils/minterm.js:76-83 | The merged pattern has the first operand's length and covers both operands. |
| Patterns.MergeSymmetric | src/utils/minterm.js:76-83 | For equal-length patterns, the mismatch count and the merged pattern do not depend on operand order. |
| Patterns.MergeWithSelf | src/utils/minterm.js:76-83 | A pattern merged with itself has no mismatch and is unchanged. |
| Patterns.NoMismatchMeansEqual | src/utils/minterm.js:76-83 | Equal-length patterns with no mismatch are equal. |
| Patterns.MergeAddsOneDash | src/utils/qm.js:52 | Merging patterns with the same dash count that differ in exactly one place adds exactly one dash. |
| Patterns.CoversReflexive | src/utils/qm.js:16-18 | Every pattern covers itself. |
| Patterns.CoversTransitive | src/utils/qm.js:16-18 | Coverage is transitive. |
| Binary.BinaryRoundTrip | src/utils/quinemccluskey.js:49 | Reading back the binary text of a value gives the value. |
| Binary.BinaryOfWidthSpec | src/utils/quinemccluskey.js:48-53 | The zero-padded text reads back as the value, is binary, and has exactly `width` digits when the value is below `2^width`. |
| Binary.BinaryLength | src/utils/qm.js:23 | A value fits in `n` binary digits exactly when it is below `2^n`. |
| Binary.FixedWidthRoundTrip | src/utils/quinemccluskey.js:102-105 | A `k`-digit binary text reads as a number below `2^k`, and that number padded to `k` digits gives the text back. |
| Binary.BinaryBounds | src/utils/quinemccluskey.js:98 | A text with a '0' reads at most `2^k - 2`; a text with a '1' reads at least 1. |
| Strings.IndexOf | src/utils/quinemccluskey.js:258 | -1 exactly when the element is absent; otherwise the first position holding it. |
| Strings.ReplaceFirst | src/utils/quinemccluskey.js:33 | Leaves the text alone when the character is absent; otherwise replaces its first occurrence only. |
| Strings.DedupSpec | src/utils/qm.js:98 | The de-duplicated list is distinct, has the same members, is no longer, and keeps the first element first. |
| Strings.DedupSnoc | src/utils/qm.js:98 | One more input element is appended at the end exactly when it is new; otherwise the result is unchanged. |
| Strings.DedupOrder | src/utils/qm.js:98 | The kept elements stand in the order of their first occurrences in the input. |
| Strings.DecimalRoundTrip | src/utils/minterm.js:21 | Decimal text reads back as its number. |
| Tabulation.QuineMcCluskey.constructor | src/utils/quinemccluskey.js:14-26 | The names are the operator-expanded inputs and `allValues` is the values followed by the don't-cares. The stored function is the rendering of `Solution(values, dontCares, primes)`. The `primes` are fresh, unused and well formed, cover every value and hold only given values. With at least one variable no two are equal, each is exact, and their patterns are exactly the prime implicants of the function. The solution is drawn from `primes` and covers every required value when those are distinct. |
| Tabulation.QuineMcCluskey.PreprocessVariables | src/utils/quinemccluskey.js:29-40 | Each name becomes its operator expansion, at the same position. |
| Render.ExpandOperatorsSpec | src/utils/quinemccluskey.js:29-40 | A name without an operator is kept. With one operator, its first occurrence is replaced by its expansion. With both, the first `⊕` and the first `≡` are each replaced where they stood, whichever comes first. |
| Strings.ReplaceInTurnEarlier | src/utils/quinemccluskey.js:33-37 | When the second character first occurs before the first one, the two replacements land at the two original positions. |
| Strings.ReplaceInTurnLater | src/utils/quinemccluskey.js:33-37 | When the first character comes first and its replacement holds no second character, the two replacements land at the two original positions. |
| Tabulation.QuineMcCluskey.GetBits | src/utils/quinemccluskey.js:48-53 | The result is the value in binary, zero-padded to the variable count. It reads back as the value and has the run's width when the value fits. |
| Tabulation.QuineMcCluskey.PadBinary | src/utils/quinemccluskey.js:49-51 | The result is the value's binary text, left-padded with '0' to `width` digits. |
| Tabulation.QuineMcCluskey.InitialGroup | src/utils/quinemccluskey.js:61-86 | There are `n + 1` buckets. Bucket `k` holds, in input order, one fresh unused Minterm per value with `k` ones, whose pattern is that value's padded binary text. |
| Tabulation.QuineMcCluskey.PlaceValue | src/utils/quinemccluskey.js:70-83 | The next value's Minterm is appended to the bucket of its count of ones; the other buckets are unchanged. |
| Terms.InOwnOnesList | src/utils/quinemccluskey.js:73-82 | Each value lands in the bucket of its own count of ones. |
| Terms.InitialGroupFacts | src/utils/quinemccluskey.js:61-86 | The initial buckets cover every value, hold only given values, and hold well-formed patterns. |
| Tabulation.QuineMcCluskey.GetPrimeImplicants | src/utils/quinemccluskey.js:158-223 | The primes are fresh and unused. They cover every value, hold only given values, and have well-formed patterns. With at least one variable no two are equal, and each stands for exactly the inputs its pattern matches. Each pattern is a prime implicant, and every prime implicant of the function is the pattern of some result. |
| Tabulation.QuineMcCluskey.PrimeImplicantsFrom | src/utils/quinemccluskey.js:158-223 | With one bucket the result is that bucket. Otherwise the results are pairwise unequal and unused, and they cover every value of the round and hold only its values. Patterns stay well formed, and no survivor of the round has a partner in an adjacent bucket. For a complete round `r` with at least one variable, every result is exact with a prime implicant pattern, and every prime implicant with at least `r` dashes is the pattern of a result. |
| Implicants.OnlyItself | src/utils/quinemccluskey.js:61-86 | The padded binary text of a value is matched by that value alone. |
| Implicants.InitialRound | src/utils/quinemccluskey.js:61-86 | The initial buckets form round 0: bucket `k` holds exact patterns with `k` ones and no dash, their values are listed, and every implicant without a dash is in its bucket. |
| Implicants.SplitImplicant | src/utils/quinemccluskey.js:189-198 | Both halves of an implicant at a '-' are implicants. |
| Implicants.JoinImplicants | src/utils/quinemccluskey.js:189-198 | Two implicants that differ only at one position join into an implicant with a '-' there. |
| Implicants.MergedImplicant | src/utils/qm.js:51-52 | Two implicants with the same dashes that differ in one place merge into an implicant. |
| Implicants.MergeShaped | src/utils/quinemccluskey.js:189-198 | The merge of neighbours in buckets `k` and `k + 1` of round `r` belongs in bucket `k` of round `r + 1`. |
| Implicants.NextRoundShape | src/utils/quinemccluskey.js:180-203 | The merged buckets of round `r` form round `r + 1`, and their values are listed. |
| Implicants.Halves | src/utils/quinemccluskey.js:189-198 | An implicant with `r + 1` dashes is the merge of two combinable Minterms of adjacent buckets of a complete round `r`. |
| Implicants.CompleteNext | src/utils/quinemccluskey.js:180-203 | When round `r` holds every implicant with `r` dashes, the next round holds every implicant with `r + 1` dashes. |
| Implicants.TermImplicant | src/utils/quinemccluskey.js:158-223 | A Minterm of a round whose values are listed has an implicant pattern. |
| Implicants.JoinGivesPartner | src/utils/quinemccluskey.js:194-196 | If a digit of a round Minterm can become '-' and stay an implicant, the Minterm has a partner and is marked. |
| Implicants.PartnerGivesJoin | src/utils/quinemccluskey.js:194-196 | A round Minterm with a partner has a digit that can become '-' in an implicant. |
| Implicants.SurvivorPrime | src/utils/quinemccluskey.js:205-212 | A round Minterm that no partner marks has a prime implicant pattern. |
| Implicants.PrimeSurvives | src/utils/quinemccluskey.js:205-212 | A round Minterm with a prime implicant pattern has no partner, so it is collected. |
| Implicants.LastRound | src/utils/quinemccluskey.js:166-168 | In the last round every Minterm is prime, and every prime implicant with at least `r` dashes is there. |
| Implicants.RoundResult | src/utils/quinemccluskey.js:205-221 | The survivors of a round together with the next round's result are exact and prime, and they hold every prime implicant with at least `r` dashes. |
| Tabulation.QuineMcCluskey.ResultCovers | src/utils/quinemccluskey.js:205-219 | Unused terms are covered through an equal result element, and used terms through the next round's result. |
| Tabulation.MergeAdjacent | src/utils/quinemccluskey.js:172-203 | There is one next-round bucket per adjacent pair, each the merged bucket of that pair, with fresh unused terms. A term becomes used exactly when it was used before or has a partner in an adjacent bucket. |
| Tabulation.MergeStep | src/utils/quinemccluskey.js:180-203 | Only bucket `compare` of the next round changes, and it becomes the merged bucket of buckets `compare` and `compare + 1`. |
| Tabulation.MergeBuckets | src/utils/quinemccluskey.js:185-202 | The merged bucket holds no equal pair and only merges of combinable pairs across the two buckets, and it has the merge of every such pair. The used flags are updated accordingly. |
| Tabulation.MergeWith | src/utils/quinemccluskey.js:186-201 | The bucket grows by fresh merges of `term1` with terms of the second bucket, one for each combinable term and without equal duplicates. |
| Tabulation.CombineInto | src/utils/quinemccluskey.js:189-200 | Both terms become used exactly when they combine. The merge is appended only if no equal Minterm is present, and the bucket keeps no equal pair. |
| Tabulation.CollectUnused | src/utils/quinemccluskey.js:205-212 | The list holds, once each, an equal of every unused term of the round, and nothing else. |
| Tabulation.AddUnused | src/utils/quinemccluskey.js:215-219 | The list is extended by unused terms, so that every unused term has an equal in it. No equal pair is introduced. |
| Tabulation.UsedTermsMerged | src/utils/quinemccluskey.js:194-198 | Every value of a used term reaches the next round through a merge. |
| Terms.MarkedMeansPartner | src/utils/quinemccluskey.js:194-196 | A term is marked in a round exactly when it has a partner in an adjacent bucket. |
| Terms.MergedBucketsSound | src/utils/quinemccluskey.js:180-203 | The next round holds only values of this round, and its patterns are well formed when this round's are. |
| Terms.PartnerMergeCovers | src/utils/quinemccluskey.js:189-198 | A term with a partner hands each of its values on to the next round. |
| Terms.ResultSound | src/utils/quinemccluskey.js:205-221 | A result drawn from the round and from the recursive call holds only values of the round, with well-formed patterns. |
| Tabulation.QuineMcCluskey.Solve | src/utils/quinemccluskey.js:231-283 | The solution is `Solution(values, dontCares, primes)`: the essential pass followed by the subset search. The `primes` carry every fact `GetPrimeImplicants` states: fresh, unused, well formed, covering, holding only given values, and with at least one variable pairwise unequal, exact and exactly the prime implicants. The solution is drawn from them and covers every required value when those are distinct. |
| Tabulation.QuineMcCluskey.EssentialLoop | src/utils/quinemccluskey.js:238-264 | The essentials and the `valuesUsed` flags are those of the essential pass over all required values. |
| Tabulation.QuineMcCluskey.CountUses | src/utils/quinemccluskey.js:245-252 | Returns the number of implicants listing the value, and the last of them. |
| Cover.UsesSpec | src/utils/quinemccluskey.js:245-255 | The count is zero exactly when no implicant lists the value. With one use, the last implicant listing it is the only one; from two uses on, two positions list it. |
| Tabulation.QuineMcCluskey.MarkValues | src/utils/quinemccluskey.js:256-261 | The flags become the marking of the listed values. |
| Cover.MarkAllSpec | src/utils/quinemccluskey.js:256-261 | A flag is set exactly where it was set before, or at the first position of a listed value that is not a don't-care. |
| Cover.EssentialPassSpec | src/utils/quinemccluskey.js:241-264 | The essentials are pairwise unequal, each the sole implicant of a required value. Every required value with a sole implicant is listed by an essential, and the flags mark exactly the first positions of the non-don't-care values the essentials list. |
| Cover.SoleCoverIsEssential | src/utils/quinemccluskey.js:255-262 | A value's sole covering implicant is among the essentials. |
| Cover.UnflaggedSpec | src/utils/quinemccluskey.js:272 | The remaining values are those at unflagged positions, and they stay distinct when the input is. |
| Cover.CandidatesSpec | src/utils/quinemccluskey.js:275-277 | Candidates are prime implicants, and a remaining value is listed as often among them as among all implicants. |
| Tabulation.QuineMcCluskey.PowerSet | src/utils/quinemccluskey.js:92-151 | Returns the first smallest accepted subset over masks 1 to `2^k - 2`, or `[]`. |
| Cover.FirstMinimalCoverSpec | src/utils/quinemccluskey.js:92-151 | With no accepted mask the result is `[]`. Otherwise it is the subset of an accepted mask, no larger than any accepted subset and strictly smaller than those of every earlier accepted mask. |
| Cover.FirstMinimalCoverFrom | src/utils/quinemccluskey.js:92-151 | The subset search picks only candidates. |
| Tabulation.QuineMcCluskey.AllSubsets | src/utils/quinemccluskey.js:95-114 | Lists the subsets of masks 1 to `2^k - 2`, in mask order. |
| Cover.Masks | src/utils/quinemccluskey.js:98 | There are `2^k - 2` masks, or none when `2^k < 2`. |
| Cover.MaskAt | src/utils/quinemccluskey.js:98-113 | Position `q` holds the subset of mask `q + 1`. |
| Tabulation.QuineMcCluskey.SubsetFor | src/utils/quinemccluskey.js:99-112 | Returns the candidates at the '1' digits of the mask's padded binary text. |
| Cover.PickSpec | src/utils/quinemccluskey.js:108-112 | Exactly the candidates at '1' positions are picked. |
| Tabulation.QuineMcCluskey.CoveringSubsets | src/utils/quinemccluskey.js:117-137 | Keeps, in order, the subsets that pass the acceptance test. |
| Tabulation.QuineMcCluskey.GatherCovered | src/utils/quinemccluskey.js:121-128 | Collects, once each, the required values the subset lists. |
| Cover.GatheredSpec | src/utils/quinemccluskey.js:121-128 | The gathered values are distinct, and they are the required values some member of the subset lists. |
| Cover.AcceptedMeans | src/utils/quinemccluskey.js:132-135 | A subset is accepted exactly when the required values are distinct and each is listed by a member of the subset. |
| Cover.KeepIfEmpty | src/utils/quinemccluskey.js:117-137 | The filter is empty exactly when no subset passes. |
| Tabulation.QuineMcCluskey.SmallestSubset | src/utils/quinemccluskey.js:140-150 | Returns the first subset of least size, or `[]` when there is none. |
| Cover.MinOfKept | src/utils/quinemccluskey.js:140-150 | The result is `[]` when nothing passes; otherwise it is a first smallest passing element. |
| Cover.TwoCandidates | src/utils/quinemccluskey.js:241-277 | A remaining value that no essential lists is listed by two candidates. |
| Cover.ProperSubsetCovers | src/utils/quinemccluskey.js:98 | In that case some mask below the full one is accepted, so skipping the full mask never loses a cover. |
| Cover.ExtraCovers | src/utils/quinemccluskey.js:280 | Then the subset search result lists every remaining value. |
| Cover.SolutionCovers | src/utils/quinemccluskey.js:231-283 | With distinct required values each listed by some implicant, the solution lists every required value. |
| Cover.SolutionFromPrimes | src/utils/quinemccluskey.js:268-282 | Every implicant of the solution is a prime implicant. |
| Tabulation.QuineMcCluskey.GetFunction | src/utils/quinemccluskey.js:292-332 | Returns the stored text when there is one. Otherwise it returns the rendering of `Solution(values, dontCares, primes)`, where `primes` carry every fact `GetPrimeImplicants` states: fresh, unused, well formed, covering, holding only given values, and with at least one variable pairwise unequal, exact and exactly the prime implicants. The solution is drawn from them, has well-formed patterns and covers every required value when those are distinct. |
| Tabulation.QuineMcCluskey.RenderSolution | src/utils/quinemccluskey.js:302-331 | The text is the rendering of the given implicants. |
| Render.LiteralsSpec | src/utils/quinemccluskey.js:314-321 | There is one literal per '0' or '1' digit, in digit order: the name for '1' and `¬` followed by the name for '0'. |
| Render.NoLiterals | src/utils/quinemccluskey.js:314-321 | A pattern has no literal exactly when it has no '0' and no '1' digit. |
| Render.HasLiteralMeans | src/utils/quinemccluskey.js:325 | An implicant has a product exactly when its pattern has a literal. |
| Render.ProductsSpec | src/utils/quinemccluskey.js:309-328 | There are no more products than implicants. There are none exactly when no implicant has a literal. |
| Render.ProductsMembers | src/utils/quinemccluskey.js:309-328 | Each product is the `⋀` join of the literals of an implicant with a literal, and each such implicant has its product. |
| Render.ExpressionSpec | src/utils/quinemccluskey.js:302-331 | The text is "0" for no implicants and "1" when every implicant is all '-'. Otherwise it is the ` ⋁ ` join of the products. |
| QmStrings.DifferByOneBit | src/utils/qm.js:2-8 | True exactly when the patterns differ at exactly one position below the first one's length. |
| QmStrings.DifferByOneBitMeans | src/utils/qm.js:2-8 | A count of one means a unique mismatching position, and the count is symmetric for equal-length patterns. |
| QmStrings.CombineMinterms | src/utils/qm.js:11-13 | Same length as `m1`. A position is '-' exactly when `m1` has '-' there or the two disagree; every other position holds the common digit. |
| QmStrings.CombineCovers | src/utils/qm.js:11-18 | A pattern covers itself, and the combination covers both operands. Combining patterns with equal dash counts that differ once adds exactly one dash. |
| QmStrings.BinMintermsSpec | src/utils/qm.js:23 | One padded text per minterm, each binary, of the run's width, and reading back as the minterm. |
| QmStrings.WithOnes | src/utils/qm.js:27-31 | Exactly the listed patterns with `k` ones. |
| QmStrings.GroupByOnes | src/utils/qm.js:27-31 | There is a bucket exactly for each count of ones that occurs, holding the patterns with that count in input order. |
| QmStrings.AscendingKeys | src/utils/qm.js:36 | The keys of the map below the bound, in strictly ascending order. |
| QmStrings.SetAdd | src/utils/qm.js:60 | Insertion-ordered set add: the members are the old ones plus `x`, distinctness is kept, and the old order is a prefix. |
| QmStrings.AddToBucket | src/utils/qm.js:55-58 | The pattern joins the bucket of its count of ones, at most once. Other buckets are unchanged, and buckets stay distinct and non-empty. |
| QmStrings.RowSpec | src/utils/qm.js:50-65 | The combinations of a lower pattern with an upper bucket are exactly its one-mismatch combinations with its members, and the used patterns are exactly both sides of those pairs. |
| QmStrings.BlockSpec | src/utils/qm.js:49-66 | The same for every pair across a lower and an upper bucket. |
| QmStrings.KeysPresent | src/utils/qm.js:29 | A bucket exists exactly for the counts of ones that occur in the level. |
| QmStrings.KeysOfLevel | src/utils/qm.js:36 | The ascending keys of such buckets are `OnesKeys` of the level, the same in every round. |
| QmStrings.AdjacentCombos | src/utils/qm.js:45-67 | Adding the pair of keys `n - 1`, `n` adds nothing when either bucket is missing, and otherwise adds the combinations across the two buckets. |
| QmStrings.AdjacentUsed | src/utils/qm.js:45-67 | The same for the used patterns. |
| QmStrings.BelowAll | src/utils/qm.js:45 | The pairs below the last key are all the pairs of the round. |
| QmStrings.ShapeAdd | src/utils/qm.js:55-58 | Adding a combination of the round's width and dashes keeps the buckets in shape. |
| QmStrings.GainedTrans | src/utils/qm.js:45-67 | Gains of consecutive steps add up. |
| QmStrings.PairFacts | src/utils/qm.js:51-63 | `CombinePair` keeps the round state, and `primes`, the buckets and `used` gain exactly the pair's combination and operands. |
| QmStrings.RowFacts | src/utils/qm.js:50-65 | The same for `CombineRow` and the combinations of the row. |
| QmStrings.BlockFacts | src/utils/qm.js:49-66 | The same for `CombineBlock` and the combinations across the two buckets. |
| QmStrings.KeysFail | src/utils/qm.js:45-49 | `CombineKeys` over the first `n` pairs fails exactly when one of them has its upper bucket but not its lower one. |
| QmStrings.KeysStayFailed | src/utils/qm.js:45-49 | Once the sweep has failed, it stays failed over more pairs. |
| QmStrings.KeysGain | src/utils/qm.js:45-67 | When it succeeds, the sweep over the first `n` pairs keeps the round state and gains exactly the combinations and used patterns of those pairs. |
| QmStrings.SweepFacts | src/utils/qm.js:45-67 | The sweep fails exactly when the level is stuck. Otherwise it keeps the round state, `primes` gains exactly the combinations, `used` gains exactly `UsedIn`, the next buckets hold the combinations, and `hasCombined` says whether there is one. |
| QmStrings.LastPair | src/utils/qm.js:45 | The number of adjacent pairs is a valid sweep bound. |
| QmStrings.TryCombine | src/utils/qm.js:51-63 | The new round state is `CombinePair` of the old one: on a single mismatch the combination joins `primes` and its bucket, both operands join `used`, and `hasCombined` is set; otherwise nothing changes. |
| QmStrings.CombineWithAll | src/utils/qm.js:50-65 | The new round state is `CombineRow` of the old one: `CombinePair` of `m1` with each upper pattern in turn. |
| QmStrings.CombineBuckets | src/utils/qm.js:49-66 | The new round state is `CombineBlock` of the old one: `CombineRow` of each lower pattern in turn. |
| QmStrings.CombineAdjacent | src/utils/qm.js:45-67 | Fails exactly when `CombineKeys` over all adjacent pairs of keys does; otherwise the new round state is its result. A pair with no upper bucket is skipped, and a pair with an upper bucket but no lower one fails. |
| QmStrings.Uncombined | src/utils/qm.js:70 | Exactly the padded minterms that were not used. |
| QmStrings.AddUncombined | src/utils/qm.js:70-71 | Every unused padded minterm joins `primes`, which stays distinct and of one width. |
| QmStrings.Round | src/utils/qm.js:42-74 | Fails exactly when the level is stuck. Otherwise `primes` gains exactly the round's combinations and the padded minterms not yet used, `used` gains exactly the patterns in combining pairs, the next buckets hold exactly the combinations, and `hasCombined` says whether there is one. |
| QmStrings.MergeRounds | src/utils/qm.js:33-75 | Fails exactly when `Run` fails. Otherwise the primes are distinct, of the run's width, and as a set they are what `Run` finds together with the padded minterms the first round does not use. |
| QmStrings.CombinationsShape | src/utils/qm.js:51-52 | Combining patterns with `d` dashes gives patterns with `d + 1`, so a non-empty round needs `d + 1 <= w`. |
| QmStrings.RunStep | src/utils/qm.js:41-75 | A level that is not stuck hands its combinations on: the rounds find them plus what the rounds from them find. |
| QmStrings.RunAdvance | src/utils/qm.js:41-75 | After the rounds have found `found` and reached a level that is not stuck, one more round adds that level's combinations to `found`. |
| QmStrings.RunEnds | src/utils/qm.js:41-75 | The rounds from a stuck level fail, and the rounds from an empty level find nothing. |
| QmStrings.RunCovers | src/utils/qm.js:60-71 | Every padded minterm is covered by something the rounds find or by itself when unused. |
| QmStrings.ProgressStep | src/utils/qm.js:41-75 | One round keeps the loop invariant: what has been found plus what the remaining rounds find is what all rounds find, and the primes are what has been found plus the unused padded minterms. |
| QmStrings.MergeStep | src/utils/qm.js:42-74 | One loop iteration: a failure means the rounds fail; otherwise the next level is the combinations, and the loop invariant holds for it. |
| QmStrings.FirstBuckets | src/utils/qm.js:27-31 | The first buckets hold exactly the padded minterms, each under its count of ones. |
| QmStrings.FirstKeys | src/utils/qm.js:36 | The keys of the first buckets are `Keys0`. |
| QmStrings.BinLevel | src/utils/qm.js:23 | The padded minterms have the run's width and no dashes. |
| QmStrings.RoundsOf | src/utils/qm.js:33-75 | `Rounds` is `Run` from the padded minterms with `Keys0`. |
| QmStrings.PrimesCover | src/utils/qm.js:60-71 | Primes equal, as a set, to what the rounds find plus the unused padded minterms cover every padded minterm. |
| QmStrings.OnesKeysAscend | src/utils/qm.js:36 | The keys ascend strictly and stay below the bound. |
| QmStrings.CombinationsImplicants | src/utils/qm.js:51-60 | The combinations of a level of implicants under ascending keys are implicants. |
| QmStrings.RunImplicants | src/utils/qm.js:41-75 | When the rounds from a level of implicants finish, everything they find is an implicant. |
| QmStrings.Level0Implicants | src/utils/qm.js:23 | Each padded minterm is an implicant: it matches its own value alone. |
| QmStrings.PrimesAreImplicants | src/utils/qm.js:33-75 | With at least one variable, what the rounds find and `Unmerged` are implicants of the minterms. |
| QmStrings.FindPrimes | src/utils/qm.js:22-75 | Succeeds exactly when `Rounds` does not fail. The primes are then distinct, of the padded width, and as a set what the rounds find plus `Unmerged`. |
| QmStrings.CoveringOf | src/utils/qm.js:80 | Exactly the primes covering `m`, distinct when the primes are. |
| QmStrings.SingleCoverage | src/utils/qm.js:80-81 | With distinct primes, one covering prime is exactly a sole cover. |
| QmStrings.EssentialsSpec | src/utils/qm.js:78-82 | Each essential is the sole cover of some padded minterm, and each sole cover is an essential. |
| QmStrings.CollectEssentials | src/utils/qm.js:78-82 | The loop computes the essential list. |
| QmStrings.QuineMcCluskey | src/utils/qm.js:22-85 | `Err` exactly when `Rounds` fails. Otherwise the primes are distinct patterns of the padded width, as a set what the rounds find plus `Unmerged`, covering every padded minterm, and with at least one variable each is an implicant of the minterms. The result is the essential list when it is non-empty, otherwise all primes. |
| QmStrings.NonEmpty | src/utils/qm.js:95 | The members are exactly the non-empty texts; an all-empty list gives `[]`. |
| QmStrings.NonEmptyAppend | src/utils/qm.js:95 | Filtering a concatenation concatenates the filtered parts, so the kept texts stay in input order. |
| QmStrings.UniqueTermsSnoc | src/utils/qm.js:91-101 | One more digit adds its text at the end, unless the text is empty or an earlier digit already gave it. |
| QmStrings.ConvertSpec | src/utils/qm.js:91-101 | The joined terms are distinct and are exactly the non-empty digit texts, with '-' giving none. The first surviving digit's text comes first, and an all-'-' pattern gives "". |

## Left out

- Sorting is not modelled: `values.sort()`, `allValues.sort()`, the value sort in the `Minterm` constructor and the `tempValues` sort. The JavaScript default sort compares as text, and the boolean comparators are not consistent orders. Values keep the order they are given in.
- Cover.AcceptedMeans: the test of `src/utils/quinemccluskey.js:132-133` compares the sorted gathered values with `values` position by position. The model compares their lengths and member sets. The two agree when both lists are in the same order. The source orders them differently (text order against a boolean comparator), which the model does not capture.
- Cover.SolutionCovers: requires distinct required values. With a repeated value, the acceptance test can reject every subset, and the solution can then miss required values.
- Tabulation.QuineMcCluskey.Solve: the cover property is stated only for distinct required values, for the same reason.
- Tabulation.QuineMcCluskey.constructor: requires every value and don't-care to be below `2^|variables|`. The source puts a larger value's longer pattern into a bucket when its count of ones still fits, and otherwise throws on a missing bucket. Neither path is modelled.
- QmStrings.QuineMcCluskey: requires every minterm below `2^numVars`, so that all padded texts have one width. The bound on merge rounds depends on that. Wider minterms, which the source pads to different lengths, are not modelled.
- QmStrings.QuineMcCluskey: also returns the prime list, which the source keeps in a local set; the source returns only the first result. The TypeError of `src/utils/qm.js:49` is an `Err` value, and it happens exactly when `Rounds` fails.
- QmStrings.MergeRounds: the primes are stated as a set. Their order, which is the insertion order of the JavaScript `Set`, is kept by the methods but not stated, and nor is the order of the next round's buckets.
- QmStrings.PrimesAreImplicants: stated for at least one variable. With zero variables the padded texts are `"0"`, one digit wider than the function.
- `decToBin` and `valueIn` from `src/utils/util.js` are not part of this model. `decToBin` is taken to be plain binary. `valueIn` is taken to be `equals`-membership for Minterms and `===` membership for numbers.
- Integer width: `value >>> 0` and the floating-point `2 ** n` are modelled as unbounded natural numbers.
- Aliasing: the constructor rewrites the caller's `variables` array in place, and `Minterm` keeps the caller's value array. The model copies both and does not capture effects visible to the caller.
- `isMaxterm` is stored but never read by the source, so it has no effect in the model.
- The ghost `solution` and `primes` of the constructor, `GetFunction` and `Solve` name intermediate results. They are not visible to callers.
- Tabulation.QuineMcCluskey.Solve, Tabulation.QuineMcCluskey.GetFunction and Tabulation.QuineMcCluskey.constructor: the order of `primes` is not stated, because the order in which the rounds collect survivors is not. So the order of the rendered products, and which of several first smallest covers the subset search picks, are not stated either.
- Tabulation.QuineMcCluskey.GetPrimeImplicants: exactness and primality are stated for at least one variable. With zero variables the patterns are `"0"`, one digit wider than the function.
- `getFunction`'s memo: `func` is stored once by the constructor. Later calls return it, which `Tabulation.QuineMcCluskey.GetFunction` states.
