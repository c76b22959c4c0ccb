# Advent of Code solutions: verified models of the puzzle cores

This project models, in Dafny, the computational core of sixteen solutions
from an Advent of Code repository (C++ solutions for 2021 to 2023, and one
Python visualiser). Each source file becomes one Dafny module in its own
file. Each module keeps the source's form:

- pure helpers become functions and lemmas;
- objects that change their fields become classes;
- the loops of the source become methods with invariants, proved against
  specification functions.

The modules are:

- **Almanac** (2023 day 5, C++): the chained interval remapping of seeds
  to locations. It covers the forward conversion, the reverse sweep that
  collects candidate boundaries, and both puzzle answers.
- **AlmanacVisual** (the Python visualiser of 2023 day 5): the same
  remapping with a dictionary-based reverse sweep, (location, seed) pairs,
  and the widest-gap probe.
- **Snafu** (2022 day 25): the balanced base-5 SNAFU numerals. It covers
  decoding, base-5 digits, and the carry pass that rewrites them.
- **LensHashmap** (2023 day 15): the HASH function, the instruction
  splitter, and the 256-bucket HASHMAP class with insertion and erasure.
- **Brackets** (2021 day 10): the bracket parser with its stack, the
  failing character, and the completion score.
- **Workflows** (2023 day 19): part-rating ranges, splitting a range at a
  rule, range scores, and the possible-values count.
- **Packets** (2022 day 13): nested integer lists, their mixed comparison,
  the stack-based parser, its printed form, and the divider positions.
- **CamelCards** (2023 day 7): hand types from card counts, the Joker
  search, the hand order, and the card letters.
- **Lanternfish** (2021 day 6): the nine-counter fish population and its
  daily rotation.
- **SupplyStacks** (2022 day 5): crate stacks and the CrateMover 9000 and
  9001 moves.
- **ParabolicDish** (2023 day 14): the rock platform as a two-dimensional
  array tilted in four directions, the spin cycle, and the north load.
- **Mirage** (2023 day 9): difference trees of a history and the
  extrapolation to the next and previous values.
- **CampCleanup** (2022 day 4): full and partial overlap of section
  ranges.
- **Origami** (2021 day 13): folding the transparent paper along a crease.
- **GrovePositioning** (2022 day 20): the mixing of the circular encrypted
  file while tracking every number's position.
- **Dive** (2021 day 2): the two readings of the submarine course.

The shared modules are small. Wrappers holds an Option type. Counting
holds counts and sums over sequences. Digits holds the decimal digit
helpers that atoi and strtol read with.

## Model

| member | source | states |
|---|---|---|
| Almanac.Convert | puzzles/2023/src/day05.cpp:34-37 | convert: shift by dest_start - source_start; RoundTrip proves convert_rev undoes it inside the rule's source range |
| Almanac.ConvertRev | puzzles/2023/src/day05.cpp:44-47 | convert_rev: shift by source_start - dest_start; OffsetsAreInverse proves the two shifts cancel |
| Almanac.RoundTrip | puzzles/2023/src/day05.cpp:29-47 | for a seed inside a rule's source range, the converted value lies in the destination range and converting it back returns the seed |
| Almanac.OffsetsAreInverse | puzzles/2023/src/day05.cpp:34-47 | convert and convert_rev shift by the same offset in opposite directions: each undoes the other for every value, and each maps one range exactly onto the other |
| Almanac.FirstMatch | puzzles/2023/src/day05.cpp:53-59 | the index found is the first rule whose source range holds the seed; none is found exactly when no rule holds it |
| Almanac.StageConvert | puzzles/2023/src/day05.cpp:53-59 | int_maps::convert applies the first matching rule, and returns the seed itself when no rule matches |
| Almanac.IdentityFallback | puzzles/2023/src/day05.cpp:53-59 | a seed no rule covers passes through a stage unchanged |
| Almanac.RunPipelineAppend | puzzles/2023/src/day05.cpp:83-88 | with no stage the seed is returned unchanged; running two pipelines back to back is running their concatenation |
| Almanac.RunThroughPipeline | puzzles/2023/src/day05.cpp:83-88 | the loop that rebinds the seed stage by stage computes the fold of the stage conversions |
| Almanac.ReverseMark | puzzles/2023/src/day05.cpp:66-77 | one mark of convert_rev adds the reverse image of the mark under every rule whose destination holds it, then erases the mark when some source range holds it |
| Almanac.StageConvertRev | puzzles/2023/src/day05.cpp:61-78 | whatever the set's iteration order: every dest_start is inserted; a mark in no source range is never removed; a reverse image stays unless it is itself a covered mark; a covered mark that is no reverse image is removed; nothing else appears |
| Almanac.ChainBounded | puzzles/2023/src/day05.cpp:89-95 | whatever order each stage walks its marks in, the sets of the reverse sweep stay within the candidate boundaries |
| Almanac.RunThroughPipelineRev | puzzles/2023/src/day05.cpp:89-95 | the reverse sweep starts from the empty set and applies convert_rev stage by stage from the last to the first, each step related to the next by the four clauses of StageConvertRev; the result lies within the candidate boundaries and keeps the first stage's uncovered dest_starts |
| Almanac.MinOf | puzzles/2023/src/day05.cpp:157 | the minimum of a range is one of its values and no value is smaller; an empty range has none |
| Almanac.Locations | puzzles/2023/src/day05.cpp:157 | the location list runs each seed through the pipeline, in order |
| Almanac.Puzzle1 | puzzles/2023/src/day05.cpp:152-160 | part 1 is the smallest location reached by a listed seed, and it is reached by one of them |
| Almanac.MinOverCandidates | puzzles/2023/src/day05.cpp:171-172 | the filter-transform-min chain gives the least location over the boundaries inside a seed range, and is absent when none is inside |
| Almanac.StartOfRangeIsCandidate | puzzles/2023/src/day05.cpp:15-21 | the start of a range with positive length passes seeds2::in_range, so it stays a candidate |
| Almanac.Puzzle2 | puzzles/2023/src/day05.cpp:162-175 | part 2 is the least location over the candidates: the reverse sweep's boundaries and the range starts that lie in a seed range; so it is no larger than the location of any non-empty range's start, and absent exactly when every range is empty |
| Almanac.RuleEndIsNoCandidate | puzzles/2023/src/day05.cpp:167-172 | on one rule (dest 100, source 0, length 10) and the seed range (0, 20), the only candidate is 0, which reaches 100, while seed 10 reaches 10 |
| Almanac.HeuristicMissesRuleEnd | puzzles/2023/src/day05.cpp:162-175 | on that input, puzzle2 as written answers 100 |
| Almanac.ExhaustiveMin | puzzles/2023/src/day05.cpp:162-175 | corrected part 2: the smallest location over every seed of every range, found by walking each range seed by seed |
| AlmanacVisual.LastRevMatch | Visualizations/day2023-05.py:200-203 | the reverse image under the last rule whose destination range holds the mark; none exactly when no rule holds it |
| AlmanacVisual.VisitMark | Visualizations/day2023-05.py:200-205 | the inner loop for one mark: the last matching rule decides the entry, and an entry still missing afterwards maps the mark to itself |
| AlmanacVisual.ConvertRevDict | Visualizations/day2023-05.py:197-206 | the keys of convert_rev's dictionary are exactly the input values plus every dest_start, and each key maps to its reverse target |
| AlmanacVisual.RevTargetByRules | Visualizations/day2023-05.py:200-205 | a key no destination range holds maps to itself; otherwise the last matching rule's reverse conversion wins |
| AlmanacVisual.RevTargetIsPreimage | Visualizations/day2023-05.py:191-206 | when the stage's source ranges are disjoint and some destination range holds the key, the key's reverse target converts forward back to the key |
| AlmanacVisual.ValuesAreTargets | Visualizations/day2023-05.py:197-206 | the dictionary's values are the reverse targets of its keys |
| AlmanacVisual.RunThroughPipelineRevPy | Visualizations/day2023-05.py:250-281 | the reverse sweep keeps only the dictionary values of each stage, and equals the stage-by-stage specification |
| AlmanacVisual.RunThroughPipelinePairs | Visualizations/day2023-05.py:213-248 | the result pairs each seed, in input order, with the location the pipeline takes it to |
| AlmanacVisual.MinPair | Visualizations/day2023-05.py:415 | min over (location, seed) pairs is a listed pair, lexicographically no greater than any other |
| AlmanacVisual.Puzzle1Py | Visualizations/day2023-05.py:398-431 | part 1 reports the least location of a listed seed, and among seeds reaching it the smallest seed |
| AlmanacVisual.WidestGap | Visualizations/day2023-05.py:459-461 | the largest (gap, start) over neighbouring pairs of the sorted boundaries; none for fewer than two values |
| AlmanacVisual.ProbesSpanWidestGap | Visualizations/day2023-05.py:459-468 | the two probe seeds start at a boundary, end one before the next, and no boundary lies strictly between them |
| AlmanacVisual.NothingBetweenNeighbours | Visualizations/day2023-05.py:459-461 | in a sorted list no value lies strictly between two neighbours |
| AlmanacVisual.StartList | Visualizations/day2023-05.py:475 | the appended list holds exactly the ranges' starts |
| AlmanacVisual.InBoundsSeeds | Visualizations/day2023-05.py:474-475 | the in-bounds list holds the boundaries that some seed range holds, and then every range start |
| AlmanacVisual.Puzzle2Py | Visualizations/day2023-05.py:434-485 | part 2 reports the location of an in-bounds seed, no larger than that of any range start or in-range boundary, and among the seeds reaching that location the smallest, as min over (location, seed) pairs does; the probe is the widest gap's pair: its left boundary and the value before the next boundary, with no boundary in between |
| Snafu.CarryKeepsValue | puzzles/2022/src/day25.cpp:54-68 | moving five units of a digit into one unit of the next more significant digit keeps the numeral's value |
| Snafu.FromSnafuChar | puzzles/2022/src/day25.cpp:13-22 | a value exists exactly for the characters 2, 1, 0, -, =, and it lies in [-2, 2] |
| Snafu.SnafuCharRoundTrip | puzzles/2022/src/day25.cpp:13-22 | the digit characters and the digit values correspond one to one |
| Snafu.FromSnafu | puzzles/2022/src/day25.cpp:24-26 | decoding succeeds exactly on strings of SNAFU digits, and gives their base-5 Horner value |
| Snafu.ToBase5String | puzzles/2022/src/day25.cpp:28-36 | the digits read back as x, most significant first, with no leading zero; the string is empty exactly for 0; digits are in [0, 4] for x at least 0 and in [-4, 0] below 0 |
| Snafu.TruncDivMod5 | puzzles/2022/src/day25.cpp:31-32 | C++ quotient and remainder by 5 recombine to the dividend, the remainder has the dividend's sign, and the quotient shrinks toward 0 |
| Snafu.ToSnafuDigit | puzzles/2022/src/day25.cpp:38-52 | to_snafu(char) throws exactly below '0' - 2; otherwise the input digit equals the SNAFU digit plus 5 times a non-negative carry, which is 0 exactly below '3' |
| Snafu.Base5ToSnafu | puzzles/2022/src/day25.cpp:54-68 | the carry pass keeps the value, always succeeds on non-negative digits, and adds one leading digit 0 or 1; an empty string stays empty |
| Snafu.InnerCarry | puzzles/2022/src/day25.cpp:58-66 | one step of the carry pass keeps the value of the partly rewritten string |
| Snafu.LastCarry | puzzles/2022/src/day25.cpp:62-64 | the carry out of the most significant digit becomes a new leading digit, keeping the value |
| Snafu.ToSnafu | puzzles/2022/src/day25.cpp:70-74 | round trip: every non-negative x has a SNAFU string, whatever string comes out decodes back to x, and a positive x starts with 0 or 1 |
| LensHashmap.HashOf | puzzles/2023/src/day15.cpp:32-40 | the HASH of any string lies in [0, 256) |
| LensHashmap.HashConcat | puzzles/2023/src/day15.cpp:32-40 | hashing a concatenation continues from the hash of the first part |
| LensHashmap.Hash | puzzles/2023/src/day15.cpp:32-40 | the character loop computes the HASH, within [0, 256) |
| Digits.DigitsValue | puzzles/2023/src/day15.cpp:24 | a string of decimal digits has a non-negative value |
| Digits.LeadingDigits | puzzles/2023/src/day15.cpp:24 | atoi reads the longest prefix of decimal digits |
| LensHashmap.AtoiDecimal | puzzles/2023/src/day15.cpp:24 | atoi reads back the decimal notation of any natural number |
| LensHashmap.FirstOp | puzzles/2023/src/day15.cpp:20 | find_first_of finds the first '=' or '-', and none when there is none |
| LensHashmap.Split | puzzles/2023/src/day15.cpp:18-29 | the key is the prefix before the first operator; the value is read by atoi only for '=', otherwise it is 0 |
| LensHashmap.SplitRoundTrip | puzzles/2023/src/day15.cpp:18-29 | the instruction strings "key=n" and "key-" split back into the instructions they were written from |
| LensHashmap.Position | puzzles/2023/src/day15.cpp:49-50 | the first bucket position whose key matches; none exactly when no entry has the key |
| LensHashmap.Find | puzzles/2023/src/day15.cpp:49-50 | the find_if loop returns that first position |
| LensHashmap.AppendEntry | puzzles/2023/src/day15.cpp:53-54 | appending an absent key puts it at the end, and no other key's position changes |
| LensHashmap.AppendKeepsUnique | puzzles/2023/src/day15.cpp:53 | appending an absent key keeps each key at most once per bucket |
| LensHashmap.SetValue | puzzles/2023/src/day15.cpp:51 | overwriting an entry's value keeps every key's position |
| LensHashmap.RemoveEntry | puzzles/2023/src/day15.cpp:62 | erasing the first entry of a key removes the key and keeps every other key's value |
| LensHashmap.HashMap.EntryIsFound | puzzles/2023/src/day15.cpp:47-64 | every entry of a valid map sits in the bucket of its key's HASH, and is what looking up its key gives |
| LensHashmap.HashMap.constructor | puzzles/2023/src/day15.cpp:46 | a new map has 256 empty buckets and holds no key |
| LensHashmap.HashMap.Entry | puzzles/2023/src/day15.cpp:47-56 | operator[] on a present key changes nothing; on an absent key it appends (key, 0) to bucket HASH(key); no other bucket and no other key changes |
| LensHashmap.HashMap.Assign | puzzles/2023/src/day15.cpp:47-56 | assignment overwrites the value of the key's entry where it stands, or appends (key, value) at the end of bucket HASH(key) when the key was absent; it touches no other bucket and no other key |
| LensHashmap.HashMap.Erase | puzzles/2023/src/day15.cpp:58-64 | erase removes the key's entry, keeps the order of the others, does nothing for an absent key, and touches no other bucket |
| LensHashmap.AssignBucketGet | puzzles/2023/src/day15.cpp:47-56 | assigning in a bucket keeps its keys unique and in that bucket, gives the key its value and keeps every other key's value |
| LensHashmap.RemoveKeyGet | puzzles/2023/src/day15.cpp:58-64 | erasing from a bucket keeps its keys unique and in that bucket, clears the key and keeps every other key's value |
| LensHashmap.ApplyKeeps | puzzles/2023/src/day15.cpp:84-89 | one instruction keeps the map well placed and changes only its own key's value, set by '=' and cleared by '-' |
| LensHashmap.ApplyAllEffect | puzzles/2023/src/day15.cpp:84-89 | the ordered buckets left by a list of instructions give every key the value its own instructions leave it |
| LensHashmap.Run | puzzles/2023/src/day15.cpp:84-89 | the instruction loop leaves the buckets, entries in order, exactly as the instructions applied in turn leave them; so each key has the value its own instructions leave it |
| Brackets.MatchClose | puzzles/2021/src/day10.cpp:40-48 | match_close's table; MatchCloseExactly proves it holds exactly for (), [], {}, <> |
| Brackets.MatchCloseExactly | puzzles/2021/src/day10.cpp:40-48 | match_close holds exactly for the pairs (), [], {}, <> |
| Brackets.CloseToScore1 | puzzles/2021/src/day10.cpp:49-57 | a closing bracket scores a positive number of points, and any other character scores 0 |
| Brackets.OpenToScore2 | puzzles/2021/src/day10.cpp:58-66 | an opening bracket scores 1 to 4, and any other character scores 0 |
| Brackets.Scan | puzzles/2021/src/day10.cpp:15-28 | the stack holds only openers, and a rejected position holds a non-opener |
| Brackets.Completion | puzzles/2021/src/day10.cpp:68-77 | the completion has one closer per open bracket |
| Brackets.OpenPrefixCompletes | puzzles/2021/src/day10.cpp:15-28 | a prefix the parser accepts, followed by the completion of its stack, is balanced |
| Brackets.BalancedScansEmpty | puzzles/2021/src/day10.cpp:15-28 | a balanced line parses with no failure and an empty stack |
| Brackets.CorruptStaysCorrupt | puzzles/2021/src/day10.cpp:22-25 | once the parser rejects a prefix it rejects every extension |
| Brackets.CorruptIffNoCompletion | puzzles/2021/src/day10.cpp:15-28 | a line is corrupted exactly when no continuation balances it; an incomplete line is balanced by its completion |
| Brackets.ScanExtends | puzzles/2021/src/day10.cpp:22-25 | the failure at a prefix's last character is the failure of the whole line |
| Brackets.Parser.constructor | puzzles/2021/src/day10.cpp:15-28 | the constructor leaves the specified stack, with fail 0 when every character was accepted and the first rejected character otherwise |
| Brackets.Parser.GetCompletionScore | puzzles/2021/src/day10.cpp:68-77 | the score is the base-5 fold of the points of the completion string, innermost first; the stack is not changed |
| Workflows.DefaultRange | puzzles/2023/src/day19.cpp:20 | every rating of a default range is [1, 4000] |
| Workflows.Split | puzzles/2023/src/day19.cpp:22-32 | split tightens only the chosen field, to min(hi, amount - excl) or max(lo, amount + excl) |
| Workflows.ScoreIsCount | puzzles/2023/src/day19.cpp:34-45 | the score is the product of the four widths, never negative, and 0 exactly when the range is invalid |
| Workflows.ValidIffNonEmpty | puzzles/2023/src/day19.cpp:34-37 | a range is valid exactly when it contains a part |
| Workflows.EvaluatePart | puzzles/2023/src/day19.cpp:82-87 | evaluate on one part: true for a rule without op, else the comparison of the chosen rating with the value |
| Workflows.EvaluateRange | puzzles/2023/src/day19.cpp:89-94 | evaluate on a range: the pass half and the fail half; EvaluateRangePartitions proves they are exactly the parts that pass and fail EvaluatePart |
| Workflows.EvaluateRangePartitions | puzzles/2023/src/day19.cpp:82-94 | a part lies in the pass half exactly when it lies in the range and passes the rule, and in the fail half exactly when it fails |
| Workflows.EvaluateRangeScores | puzzles/2023/src/day19.cpp:89-94 | the scores of the pass and fail halves add up to the range's score |
| Workflows.CountBounded | puzzles/2023/src/day19.cpp:220-237 | the count of accepted combinations from any workflow never exceeds the size of the range, nor goes below 0 |
| Workflows.CountRulesBounded | puzzles/2023/src/day19.cpp:228-236 | the count over a workflow's remaining rules never exceeds the size of what is left of the range |
| Workflows.PossibleValues | puzzles/2023/src/day19.cpp:220-237 | the loop and its recursive calls compute Count: "A" counts the whole range and "R" nothing; a rule without op forwards all that is left to its destination and ends the loop; a comparison adds the count of its passing half and leaves the failing half to the next rule; an unknown workflow gives no answer; any answer is between 0 and the range's score |
| Packets.Less | puzzles/2022/src/day13.cpp:24-29 | no element is less than itself: a smaller element always differs from the larger |
| Packets.LexLess | puzzles/2022/src/day13.cpp:26 | no list is lexicographically less than itself |
| Packets.Asymmetric | puzzles/2022/src/day13.cpp:43-45 | of two elements at most one is less than the other |
| Packets.LexAsymmetric | puzzles/2022/src/day13.cpp:26 | of two lists at most one is lexicographically less |
| Packets.IntIsWrapped | puzzles/2022/src/day13.cpp:27-28 | comparing an integer is comparing the one-element list holding it, on either side |
| Packets.PrefixIsLess | puzzles/2022/src/day13.cpp:26 | a proper prefix of a list is less than the list |
| Packets.ShowInt | puzzles/2022/src/day13.cpp:31 | an integer prints as a '-' or a digit followed by its digits |
| Packets.Strtol | puzzles/2022/src/day13.cpp:74 | a successful strtol consumes at least one and at most all characters |
| Packets.SignedNumber | puzzles/2022/src/day13.cpp:74 | a conversion consumes at least one character and stops right after the last of the digits it reads; a negative value only comes after '-' |
| Packets.AddToTop | puzzles/2022/src/day13.cpp:67 | the element is appended to the list on top of the stack; the lists below are unchanged |
| Packets.Step | puzzles/2022/src/day13.cpp:58-76 | one pass consumes at least one character and keeps the stack non-empty; '[' pushes an empty list, ',' is skipped, ']' fails exactly when no list lies below the top and otherwise appends the popped top list to the one below |
| Packets.Run | puzzles/2022/src/day13.cpp:58-76 | a successful character loop leaves a non-empty stack |
| Packets.Parse | puzzles/2022/src/day13.cpp:47-83 | a parsed line is the single element of the single list the loop leaves; an empty line is no element |
| Packets.ParseLine | puzzles/2022/src/day13.cpp:47-83 | the parser loop over one line computes the specified parse |
| Packets.StrtolShowInt | puzzles/2022/src/day13.cpp:74 | strtol reads back a printed integer and consumes exactly its characters |
| Packets.RunOpen | puzzles/2022/src/day13.cpp:59-62 | '[' pushes an empty list |
| Packets.RunClose | puzzles/2022/src/day13.cpp:64-69 | ']' pops the top list and appends it to the list below |
| Packets.RunComma | puzzles/2022/src/day13.cpp:71-72 | ',' is skipped |
| Packets.RunShow | puzzles/2022/src/day13.cpp:58-76 | reading the printed form of an element appends that element to the top list |
| Packets.ParseShow | puzzles/2022/src/day13.cpp:30-83 | round trip: parsing the printed form of any element gives the element back |
| Packets.DividerPosition | puzzles/2022/src/day13.cpp:112-113 | the 1-based position of the first equal element; none exactly when it does not occur |
| Packets.SmallerComeFirst | puzzles/2022/src/day13.cpp:110-113 | in a sorted list every element less than the divider comes before the divider's position |
| CamelCards.DetermineType | puzzles/2023/src/day07.cpp:20-39 | the type lies between HIGH_CARD and FIVE_KIND; it is FIVE_KIND exactly when some value occurs five times; a full house has a triple and a pair, two pair has two pairs and no triple |
| CamelCards.DetermineTypeLoop | puzzles/2023/src/day07.cpp:20-39 | the tallying loop classifies the counts as specified, between HIGH_CARD and FIVE_KIND |
| CamelCards.HighCardIffNoRepeat | puzzles/2023/src/day07.cpp:20-39 | for a five-card count a hand is HIGH_CARD exactly when no value repeats, and FIVE_KIND exactly when one value occurs five times |
| CamelCards.JokerAtLeastPlain | puzzles/2023/src/day07.cpp:41-59 | the best Joker substitution is never worse than counting each Joker as the value 1 |
| CamelCards.NoJokerIsPlain | puzzles/2023/src/day07.cpp:41-50 | without Jokers the recursion gives the plain type |
| CamelCards.JokerTypeBounds | puzzles/2023/src/day07.cpp:61-69 | a hand's part 2 type is at least its part 1 type, and equal when it holds no Joker |
| CamelCards.BestFromCovers | puzzles/2023/src/day07.cpp:52-58 | the maximum over substitutions is at least the type of each substitution tried |
| CamelCards.LexLess | puzzles/2023/src/day07.cpp:73 | no card sequence is less than itself |
| CamelCards.HandLess | puzzles/2023/src/day07.cpp:71-75 | a stronger type always wins, a hand never beats a weaker type, and no hand is less than an equal one |
| CamelCards.LexTotal | puzzles/2023/src/day07.cpp:73 | two different card sequences of one length are ordered one way or the other, never both |
| CamelCards.HandOrder | puzzles/2023/src/day07.cpp:71-75 | operator< is a strict total order: asymmetric, total on different hands, and transitive |
| CamelCards.FromChar | puzzles/2023/src/day07.cpp:79-100 | A, K, Q, T map to 14, 13, 12, 10; J to 11 in part 1 and 1 in part 2; other characters to c - '0' |
| CamelCards.FromCharRanks | puzzles/2023/src/day07.cpp:79-100 | from_char orders the card letters as the game ranks them, in both parts, and every value indexes the counts |
| CamelCards.Hand.constructor | puzzles/2023/src/day07.cpp:16-18 | a new hand holds its cards and the DEFAULT type |
| CamelCards.Hand.SetTypes | puzzles/2023/src/day07.cpp:61-67 | set_types stores the type of the tallied cards |
| CamelCards.Hand.SetJokerTypes | puzzles/2023/src/day07.cpp:69 | set_joker_types stores the best type over every Joker substitution |
| CamelCards.Hand.TypeRecursive | puzzles/2023/src/day07.cpp:41-59 | the recursion with its loop over [0, 15) computes the best type over every substitution of the remaining Jokers |
| CamelCards.Hand.Less | puzzles/2023/src/day07.cpp:71-75 | operator< on two hands: a stronger stored type always wins, a hand never beats a weaker type, and no hand is less than one with the same type and cards |
| CamelCards.CountsAtMostFive | puzzles/2023/src/day07.cpp:61-65 | no count of a five-card hand exceeds 5, so has[count - 2] stays in bounds |
| Lanternfish.AgeFish | puzzles/2021/src/day06.cpp:29-34 | the reference one-timer-per-fish day keeps every timer in [0, 9) |
| Lanternfish.Tally | puzzles/2021/src/day06.cpp:21-27 | the nine counters are non-negative |
| Lanternfish.TotalAfterDay | puzzles/2021/src/day06.cpp:29-34 | a day adds as many fish as there were timers at 0 |
| Lanternfish.NextDay | puzzles/2021/src/day06.cpp:29-34 | after a day counter 8 holds the old counter 0, counter 6 holds old 7 plus old 0, and every other counter k holds old k + 1 |
| Lanternfish.TallySum | puzzles/2021/src/day06.cpp:36-38 | the counters add up to the number of fish |
| Lanternfish.TallyAgeFish | puzzles/2021/src/day06.cpp:29-34 | rotating the counters is exactly what ageing every fish does to the tally |
| Lanternfish.TallyAgeFishDays | puzzles/2021/src/day06.cpp:59-61 | n rotations of the counters tally n days of the individual fish |
| Lanternfish.FishPopulation.constructor | puzzles/2021/src/day06.cpp:18-19 | a new population has nine zero counters on day 0 |
| Lanternfish.FishPopulation.Increment | puzzles/2021/src/day06.cpp:29-34 | operator++ advances the day and rotates the counters in place |
| Lanternfish.FishPopulation.GetResult | puzzles/2021/src/day06.cpp:36-38 | get_result is the total over the counters |
| Lanternfish.FishPopulation.Generations | puzzles/2021/src/day06.cpp:59-61 | n increments advance n days |
| Lanternfish.FromTimers | puzzles/2021/src/day06.cpp:21-27 | the constructor succeeds exactly when every timer is in [0, 9), and then holds their tally |
| Lanternfish.RunTest | puzzles/2021/src/day06.cpp:56-64 | run_test returns the number of fish the one-timer-per-fish simulation ends with |
| SupplyStacks.LineIndexToStack | puzzles/2022/src/day05.cpp:8-10 | (i - 1) / 4 on unsigned values, with i = 0 wrapping around |
| SupplyStacks.ColumnsOfStack | puzzles/2022/src/day05.cpp:40-43 | the drawing column of stack k, and the three after it, map back to k |
| SupplyStacks.Move9000Reverses | puzzles/2022/src/day05.cpp:52-59 | between two stacks the 9000 puts the top n crates on the target upside down and changes no other stack |
| SupplyStacks.Move9000SameStack | puzzles/2022/src/day05.cpp:52-59 | within one stack the 9000 puts each crate straight back |
| SupplyStacks.CranesCompared | puzzles/2022/src/day05.cpp:52-73 | both cranes leave the source alike; the 9001 keeps the block's order where the 9000 reverses it; they agree for at most one crate |
| SupplyStacks.MovesConserve | puzzles/2022/src/day05.cpp:52-73 | both cranes keep every crate |
| SupplyStacks.CrateStacks.At | puzzles/2022/src/day05.cpp:50 | at(n): stacks are numbered from 1, so stack n is entry n - 1; ApplyDirection9000 and ApplyDirection9001 state their requires through it and move between entries start - 1 and end - 1 |
| SupplyStacks.CrateStacks.constructor | puzzles/2022/src/day05.cpp:24 | nine empty stacks |
| SupplyStacks.CrateStacks.ApplyDirection9000 | puzzles/2022/src/day05.cpp:50-59 | amount single-crate moves between the 1-numbered stacks, as the 9000 specification says |
| SupplyStacks.CrateStacks.ApplyDirection9001 | puzzles/2022/src/day05.cpp:61-73 | the block lifted through the temporary stack lands in its original order |
| ParabolicDish.SwapVerticalKeeps | puzzles/2023/src/day14.cpp:22 | swapping a round rock with an empty cell keeps every fixed rock where it is |
| ParabolicDish.SwapVerticalColumns | puzzles/2023/src/day14.cpp:22 | a swap inside a column keeps each column's characters |
| ParabolicDish.SwapHorizontalRows | puzzles/2023/src/day14.cpp:50 | a swap inside a row keeps each row's characters |
| ParabolicDish.StopNorthSpec | puzzles/2023/src/day14.cpp:21-23 | a rock rolling north crosses only empty cells and stops at the top row or under a non-empty cell, so it never passes a cube-shaped rock |
| ParabolicDish.StopSouthSpec | puzzles/2023/src/day14.cpp:36-38 | a rock rolling south crosses only empty cells and stops at the bottom row or over a non-empty cell |
| ParabolicDish.StopWestSpec | puzzles/2023/src/day14.cpp:49-51 | a rock rolling west crosses only empty cells and stops at the left edge or beside a non-empty cell |
| ParabolicDish.StopEastSpec | puzzles/2023/src/day14.cpp:63-65 | a rock rolling east crosses only empty cells and stops at the right edge or beside a non-empty cell |
| ParabolicDish.CubeRockBlocks | puzzles/2023/src/day14.cpp:14-26 | on a north tilt the column empty, cube rock, round rock (top to bottom) is left as it is: a round rock never passes a cube-shaped rock |
| ParabolicDish.NorthRolled | puzzles/2023/src/day14.cpp:21-23 | once a rock stops under a non-empty cell, its column is settled up to its row, and the grid is the old one with the rock moved to its northern stop |
| ParabolicDish.SouthRolled | puzzles/2023/src/day14.cpp:36-38 | once a rock stops above a non-empty cell, its column is settled from its row down, and the grid is the old one with the rock moved to its southern stop |
| ParabolicDish.WestRolled | puzzles/2023/src/day14.cpp:49-51 | once a rock stops right of a non-empty cell, its row is settled up to its column, and the grid is the old one with the rock moved to its western stop |
| ParabolicDish.EastRolled | puzzles/2023/src/day14.cpp:63-65 | once a rock stops left of a non-empty cell, its row is settled from its column on, and the grid is the old one with the rock moved to its eastern stop |
| ParabolicDish.ColumnsKeepBag | puzzles/2023/src/day14.cpp:14-41 | a rearrangement within columns keeps the grid's characters |
| ParabolicDish.RowsKeepBag | puzzles/2023/src/day14.cpp:42-68 | a rearrangement within rows keeps the grid's characters |
| ParabolicDish.CountRocks | puzzles/2023/src/day14.cpp:92 | a row holds no more round rocks than cells |
| ParabolicDish.LoadFormulasAgree | puzzles/2023/src/day14.cpp:83-93 | the enumerate-reverse load and the rank-counting load are equal |
| ParabolicDish.LoadBound | puzzles/2023/src/day14.cpp:89-93 | the load is at least 0 and each round rock adds at most the height |
| ParabolicDish.Rocks.constructor | puzzles/2023/src/day14.cpp:6-7 | the platform holds the given rows |
| ParabolicDish.Rocks.SwapInColumn | puzzles/2023/src/day14.cpp:22 | std::swap of two cells of a column |
| ParabolicDish.Rocks.SwapInRow | puzzles/2023/src/day14.cpp:50 | std::swap of two cells of a row |
| ParabolicDish.Rocks.TiltNorth | puzzles/2023/src/day14.cpp:14-26 | the new grid is exactly the old one with every round rock, row by row, moved to its northern stop; fixed rocks stay, each column keeps its characters, and no round rock has an empty cell above it |
| ParabolicDish.Rocks.RollNorth | puzzles/2023/src/day14.cpp:21-23 | the new grid is the old one with this rock moved up to its northern stop and the cells it left empty; fixed rocks and columns are kept |
| ParabolicDish.Rocks.TiltSouth | puzzles/2023/src/day14.cpp:28-41 | the new grid is exactly the old one with every round rock, from the second last row up, moved to its southern stop; fixed rocks stay, each column keeps its characters, and no round rock has an empty cell below it |
| ParabolicDish.Rocks.RollSouth | puzzles/2023/src/day14.cpp:36-38 | the new grid is the old one with this rock moved down to its southern stop and the cells it left empty |
| ParabolicDish.Rocks.TiltWest | puzzles/2023/src/day14.cpp:42-54 | the new grid is exactly the old one with every round rock, left to right, moved to its western stop; fixed rocks stay, each row keeps its characters, and no round rock has an empty cell to its left |
| ParabolicDish.Rocks.RollWest | puzzles/2023/src/day14.cpp:49-51 | the new grid is the old one with this rock moved left to its western stop and the cells it left empty |
| ParabolicDish.Rocks.TiltEast | puzzles/2023/src/day14.cpp:55-68 | the new grid is exactly the old one with every round rock, right to left, moved to its eastern stop; fixed rocks stay, each row keeps its characters, and no round rock has an empty cell to its right |
| ParabolicDish.Rocks.RollEast | puzzles/2023/src/day14.cpp:63-65 | the new grid is the old one with this rock moved right to its eastern stop and the cells it left empty |
| ParabolicDish.Rocks.Cycle | puzzles/2023/src/day14.cpp:70-75 | a spin cycle is the north, west, south and east tilts in that order; it keeps the fixed rocks and the grid's characters, and ends settled to the east |
| ParabolicDish.Rocks.Load | puzzles/2023/src/day14.cpp:89-93 | the rank loop computes the north load, equal to the enumerate-reverse formula and bounded by height times cells |
| Mirage.AdjacentDifference | puzzles/2023/src/day09.cpp:27 | std::adjacent_difference copies the first entry and then takes each entry minus the one before |
| Mirage.Diffs | puzzles/2023/src/day09.cpp:27-28 | one entry fewer, each the difference of two neighbours |
| Mirage.AdjacentDifferenceTail | puzzles/2023/src/day09.cpp:27-28 | dropping the first entry of adjacent_difference leaves the differences |
| Mirage.DifferenceTree | puzzles/2023/src/day09.cpp:23-32 | the while loop builds the specified difference tree |
| Mirage.TreeLevels | puzzles/2023/src/day09.cpp:23-32 | level 0 is the history; each level is the differences of the one above; every level but the last has a nonzero entry and the last has none; level i has i entries fewer than the history |
| Mirage.FindNextAsWritten | puzzles/2023/src/day09.cpp:34-37 | find_next is defined exactly when no level is empty, and then sums the last entries |
| Mirage.FindPrevAsWritten | puzzles/2023/src/day09.cpp:39-42 | find_prev is defined exactly when no level is empty, and then folds n - part over the first entries |
| Mirage.AsWrittenUndefinedIff | puzzles/2023/src/day09.cpp:23-42 | the folds as written are undefined exactly when the tree has one level more than the history has entries |
| Mirage.FoldsOfOneLevel | puzzles/2023/src/day09.cpp:34-42 | on a one-level tree the folds give that level's last and first entries, or 0 when it is empty |
| Mirage.NextExtends | puzzles/2023/src/day09.cpp:34-37 | appending the prediction to the history appends the differences' prediction to the differences |
| Mirage.PrevExtends | puzzles/2023/src/day09.cpp:39-42 | prepending the backward prediction prepends the differences' backward prediction |
| Mirage.ConstantHistory | puzzles/2023/src/day09.cpp:23-42 | a constant history predicts the same constant at both ends |
| Mirage.SingleEntryHistory | puzzles/2023/src/day09.cpp:23-42 | for the history [1] the tree ends with an empty level, both folds as written are undefined, and the corrected predictions are 1 |
| CampCleanup.OverlapFull | puzzles/2022/src/day04.cpp:17-24 | overlap_full's bound comparisons; OverlapFullIsContainment proves they hold exactly when one range's sections contain the other's |
| CampCleanup.Overlap | puzzles/2022/src/day04.cpp:26-33 | overlap's bound comparisons; OverlapIsIntersection proves they hold exactly when the ranges share a section |
| CampCleanup.Containment | puzzles/2022/src/day04.cpp:17-24 | a non-empty range lies within another exactly when its bounds do |
| CampCleanup.OverlapFullIsContainment | puzzles/2022/src/day04.cpp:17-24 | overlap_full holds exactly when one range's sections contain the other's |
| CampCleanup.OverlapIsIntersection | puzzles/2022/src/day04.cpp:26-33 | overlap holds exactly when the two ranges share a section |
| CampCleanup.Symmetric | puzzles/2022/src/day04.cpp:17-33 | both predicates ignore the order of the pair |
| CampCleanup.FullImpliesOverlap | puzzles/2022/src/day04.cpp:17-33 | a pair where one range contains the other also overlaps |
| CampCleanup.CountsOrdered | puzzles/2022/src/day04.cpp:35-47 | the part 2 count is at least the part 1 count, and neither exceeds the number of pairs |
| Origami.FoldedYMembers | puzzles/2021/src/day13.cpp:22-32 | after a fold along y = c, a dot is on the paper exactly when it lies above the crease and it or its mirror image was there |
| Origami.FoldedXMembers | puzzles/2021/src/day13.cpp:34-44 | the same for a fold along x = c |
| Origami.FoldNeverGrows | puzzles/2021/src/day13.cpp:22-44 | a fold never adds dots |
| Origami.FoldedYStep | puzzles/2021/src/day13.cpp:24-29 | one more dot adds itself, its mirror image, or nothing, as the loop body inserts |
| Origami.FoldedXStep | puzzles/2021/src/day13.cpp:36-41 | the same for a vertical crease |
| Origami.Paper.constructor | puzzles/2021/src/day13.cpp:46-55 | the paper holds the given dots and dimensions |
| Origami.Paper.FoldY | puzzles/2021/src/day13.cpp:22-32 | the new dot set is the folded set and the height becomes the crease |
| Origami.Paper.FoldX | puzzles/2021/src/day13.cpp:34-44 | the new dot set is the folded set and the width becomes the crease |
| Origami.Paper.PointCount | puzzles/2021/src/day13.cpp:73-75 | point_count: the number of dots; DoFold ensures a fold never increases the number of dots |
| Origami.Paper.DoFold | puzzles/2021/src/day13.cpp:66-71 | 'y' folds horizontally and any other axis vertically; afterwards no dot lies on or beyond the crease and there are no more dots than before |
| GrovePositioning.Sign | puzzles/2022/src/day20.cpp:11-15 | sign is 1, -1 or 0 as its argument is positive, negative or zero |
| GrovePositioning.TruncRem | puzzles/2022/src/day20.cpp:21 | C++ % takes the dividend's sign and stays below the divisor in size |
| GrovePositioning.TruncRemCongruent | puzzles/2022/src/day20.cpp:21 | the C++ remainder is congruent to the dividend |
| GrovePositioning.ClampRange | puzzles/2022/src/day20.cpp:17-27 | a nonzero move lands in [1, max - 1], congruent to base + diff modulo the max - 1 remaining slots |
| GrovePositioning.Clamp | puzzles/2022/src/day20.cpp:17-27 | a zero move stays at base; a nonzero move from a valid position lands in [1, max - 1] |
| GrovePositioning.Moved | puzzles/2022/src/day20.cpp:67-68 | erase then insert keeps the length |
| GrovePositioning.ShiftIsSignStep | puzzles/2022/src/day20.cpp:59-64 | the index update subtracts sign(clamped - index) exactly for positions between the two ends |
| GrovePositioning.MovedAt | puzzles/2022/src/day20.cpp:67-68 | after erase and insert, the moved number is at its target and the numbers in between shift by one toward the gap |
| GrovePositioning.MovedTracks | puzzles/2022/src/day20.cpp:59-68 | every other number is found at its shifted position |
| GrovePositioning.MovedKeepsNumbers | puzzles/2022/src/day20.cpp:67-68 | moving a number keeps the numbers |
| GrovePositioning.ShiftInjective | puzzles/2022/src/day20.cpp:59-64 | shifting keeps distinct positions distinct |
| GrovePositioning.MoveStepTracks | puzzles/2022/src/day20.cpp:56-68 | moving the i-th original number keeps the numbers and keeps the decryption index locating every original number at distinct positions |
| GrovePositioning.RoundFrom | puzzles/2022/src/day20.cpp:51-69 | the rest of a round, numbers i, i + 1, ... moving in turn, keeps the numbers and the decryption index valid |
| GrovePositioning.Rounds | puzzles/2022/src/day20.cpp:50-75 | any number of rounds keeps the numbers and the decryption index valid |
| GrovePositioning.MoveNumber | puzzles/2022/src/day20.cpp:56-68 | one step of the inner loop erases the number at decryption_index[i] and inserts it at the clamped position, records that position for i, shifts every other index by the sign step, and keeps the index locating every original number |
| GrovePositioning.MixRound | puzzles/2022/src/day20.cpp:51-69 | the inner loop performs the round moving each original number in turn |
| GrovePositioning.Mix | puzzles/2022/src/day20.cpp:43-75 | mixing leaves exactly the list and index of repeat rounds over the scaled numbers from the identity index; it keeps the scaled numbers, and decryption_index[k] locates the k-th scaled number |
| Dive.MoveVersion1 | puzzles/2021/src/day02.cpp:44-59 | move_version1: forward adds to the position, down and up change the depth; Version1ClosedForm gives the position and depth after a whole course |
| Dive.MoveVersion2 | puzzles/2021/src/day02.cpp:61-77 | move_version2: down and up change the aim, forward advances and dives by aim times distance; Version2ClosedForm gives the result of a whole course |
| Dive.FollowPath | puzzles/2021/src/day02.cpp:80-82 | std::accumulate of the move function from the zero coordinates; FollowSplit proves it splits over a concatenated course |
| Dive.Answer | puzzles/2021/src/day02.cpp:37-42 | print_result's return value, the forward position times the depth |
| Dive.Version1ClosedForm | puzzles/2021/src/day02.cpp:44-59 | in the first reading the position is the forward total, the depth is down minus up, and the aim stays 0 |
| Dive.Version2ClosedForm | puzzles/2021/src/day02.cpp:61-77 | in the second reading the position is the forward total, the aim is down minus up, and each forward step dives by the aim times its distance |
| Dive.ReadingsRelated | puzzles/2021/src/day02.cpp:80-92 | both readings reach the same position, and the second one's aim is the first one's depth |
| Dive.FollowSplit | puzzles/2021/src/day02.cpp:80-82 | following a course in two parts is following the second from where the first ended |

## Left out

- Reading and parsing input files, printing, and the pygame drawing and timing of the visualiser are left out everywhere. Inputs are given as values.
- Integer widths (32-bit int, 64-bit long) are left out in every module: the model uses unbounded integers, so no overflow is modelled. SupplyStacks.LineIndexToStack is the exception: it models the unsigned wrap-around of i - 1 explicitly.
- Almanac.Puzzle2: the C++ inserts every range start before the in_range filter, so the start of an empty range is dropped. The Python appends the starts after its filter. Each module follows its own code.
- AlmanacVisual.Puzzle2Py: takes the sorted boundary list as an argument, with requires clauses that it is strictly increasing (sorted(set(...))) and holds exactly the reverse sweep's values, instead of sorting the set itself. The probe seeds are only drawn; they never enter the candidate list, so the minimum does not depend on them.
- Almanac.StageConvertRev: the unordered_set iteration order is not modelled; the contract bounds the result for every order.
- Snafu: C++ char arithmetic is modelled on the character codes, without signed 8-bit wrap-around.
- LensHashmap.Split: a string with no '=' or '-' indexes at npos in the source (undefined); the model gives None.
- LensHashmap.HashOf: adds each character's code as a non-negative number. In the source `char` is signed on the usual platforms, so a byte of 0x80 or above adds a negative value and the truncating `%` can then give a negative hash, an index outside the 256 buckets. Only ASCII input is modelled faithfully.
- LensHashmap.Hash: the same unsigned reading of characters as HashOf.
- Brackets.Parser.constructor: fail is the NUL character when nothing failed, as in the source. A line containing NUL itself is not told apart.
- Workflows.PossibleValues: recursion is bounded by a fuel parameter; a workflow chain deeper than the fuel gives no answer. A cycle of workflows, which never terminates in the source, also gives no answer.
- Workflows: accepted() on single parts, and the parsing of workflows, are left out.
- Packets.DividerPosition: gives None when the divider is absent. std::find would then return end(), and the source would compute the list size + 1; puzzle2 always inserts both dividers first, so this does not arise there.
- Packets.Step: ']' with no list below the top gives None. The source pops the bottom list and then calls top() on the empty stack, which is undefined behaviour.
- Packets.Strtol: a character that strtol cannot convert makes the source loop forever; the model gives None. The transitivity of operator< is not proved. std::sort and the part 1 index sum are left out; SmallerComeFirst assumes a sorted list.
- CamelCards: the sorting of bids and the winnings sum are left out.
- Lanternfish.FromTimers: at() throwing on a timer outside [0, 9) is modelled as no population.
- SupplyStacks.CrateStacks.ApplyDirection9000: requires that the source stack holds enough crates, since back() and pop_back() on an empty deque are undefined. ApplyDirection9001 requires the source stack to hold the whole block, for the same reason. Reading the crate drawing is left out beyond LineIndexToStack and ColumnsOfStack. A negative amount runs no move (Times is 0).
- ParabolicDish: the part 2 cycle detection over a billion spins is left out (it needs equality of whole platforms and an unbounded search); the spin cycle it repeats is modelled.
- Origami.Paper.constructor: takes the dimensions as an argument instead of computing the largest coordinates plus one. print_paper is left out.
- GrovePositioning.Mix: requires that a single-number file only holds 0; with one nonzero number clamp divides by max - 1 = 0. The grove-coordinate sum after mixing is left out.
- Mirage: the puzzle sums over all histories are left out.
- Dive: parsing of the steps and the printing in print_result are left out; its return value, forward times depth, is Dive.Answer.
- CampCleanup: counting is modelled by FullCount and OverlapCount over a list of pairs instead of a filtered stream.

## Findings

| source | as written | input that shows it | evidently intended | confidence | as-written member | corrected member |
|---|---|---|---|---|---|---|
| puzzles/2023/src/day05.cpp:167-172 | the part 2 candidates are the reverse images of rule starts plus the range starts, so a seed where a rule's source range ends is never tried | one stage with the rule (dest 100, source 0, length 10) and the seed range (0, 20): the answer is 100, but seed 10 reaches 10 | the smallest location over every seed of every range | not executed | Almanac.HeuristicMissesRuleEnd | Almanac.ExhaustiveMin |
| puzzles/2023/src/day09.cpp:23-42 | when a history's differences run out before any level is all zeros, the last level is empty, and find_next and find_prev call back() and front() on it (undefined behaviour) | the history [1]: the tree is [[1], []] | an empty level contributes 0, so the extrapolation is the lowest-degree polynomial through the history; [1] predicts 1 at both ends | not executed | Mirage.SingleEntryHistory | Mirage.NextExtends |
