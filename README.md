# Watercourse-name resolution and document tagging, modelled in Dafny

This project models the name-processing core of a toolkit that links the
watercourse, lake and power-plant names found in Norwegian documents to the
NVE watercourse registers (the Regine index). It states and proves the
properties of that model.

What the modules model:

- **The resolver** (`nve_data/resolve_vassdrag2.py`) is a pipeline, one module per stage:
  - `NameSplitting`: free text is cut into single names at "og", "&", "+/", "/" and ",", and hyphenated combinations such as "Tokke-Vinjevassdraget" are expanded.
  - `Suffixes`: the table of known name endings, and each word's split into stem and ending.
  - `CandidateGeneration`: the candidate spellings of each name, kept in a candidate list.
  - `CategoryNormalization`: each ending is rewritten to its category (ELV, VANN, FJORD, DAL, FJELL).
  - `IndexPreparation`: the three lookup tables are built over the index, and exact lookup reads them.
  - `MatchScoring`: the three scoring phases run through `register`, which keeps the best result per watercourse number.
  - `Phonetics` and `PhoneticMatching`: the phonetic fallback, with its signatures and tolerance tables.
  - `CoordinateBonus`: a nearness bonus by rank for the five nearest results.
  - `Resolver`: the clean-up, split, score, bonus, filter and sort of `resolve_vassdrag`.
  - `EditDistance`: the Levenshtein specification shared by both resolvers.
- **The older resolver** (`nve_data/resolve_vassdrag.py`):
  - `LegacyNames`: ending normalisation, the phonetic fold, the edit distance and the watercourse-number bonus.
  - `LegacyLookup`: exact, fuzzy and prefix lookup.
  - `LegacyVariants`: the scored variants.
  - `LegacyResolver`: the single and composite lookups.
- **The index builder** (`nve_data/build_regine_index.py`): `RegineIndexBuilder`, with the rows of the index in `Regine`.
- **The name mapping script** (`nve_data/map_names.py`): `NameMapping`.
- **The two ending-frequency scripts**: `CommonEndings` (`nve_data/find_common_endings.py`) and `EndingGroups` (`nve_data/find_common_endings2.py`).
- **Step 3 of the document pipeline** (`steg3_identifiser_entiteter.py`): `EntityMatching`, which normalises entity names, picks the best register candidate and rewrites a tag with the looked-up attributes.
- **Step 4** (`steg4_nsd_til_html.py`): `NsdRendering`, which rewrites tags for the Markdown parser, runs the inline tag rule, parses attributes and builds the tooltip rows.

Shared helpers:

- `Text`: Python's string built-ins over a fixed alphabet.
- `Sorting`: Python's stable `sort` with a key.
- `OrderedDict`: a Python dict with its insertion order.
- `Opt`: `None`-or-value.

The code's form decides how each part is modelled:

- Code that loops and appends is a `method` with loop invariants, proved equal to a specification function. The properties the source promises are lemmas about that function.
- Objects whose fields change in place are classes with `modifies` clauses:
  - the candidate list of `_generate_original_candidates`;
  - the `best_per_vassdrag` dict of `register`;
  - the parser state of the inline tag rule.
- The results updated in place by the coordinate bonus are an `array`.
- Pure helpers are functions.


Where the code and its written description differ, the model follows the code:

- The direction-word candidate of the resolver (`nve_data/resolve_vassdrag2.py:440-455`) removes every direction word of a multi-word name, not only a leading one, and "gamle" is not a direction word there.
- The prefix bonus of the phonetic phase in the resolver is 3 points per matching cleaned leading letter (`nve_data/resolve_vassdrag2.py:991-1000`), plus a bonus for agreeing stems (`nve_data/resolve_vassdrag2.py:887-894`). The tiers of 8, 12 and 25 points belong to the older resolver (`nve_data/resolve_vassdrag.py:656-682`) and are modelled there.

## Model

| member | source | states |
|---|---|---|
| EditDistance.LevStep | nve_data/resolve_vassdrag2.py:979-988 | each cell of the dynamic-programming table is the minimum of insertion, deletion and substitution (cost 0 for equal characters) over the three neighbouring prefix distances |
| EditDistance.LevSymmetric | nve_data/resolve_vassdrag2.py:972-974 | the distance does not depend on argument order, so swapping the longer string first changes nothing |
| EditDistance.LevBounds | nve_data/resolve_vassdrag2.py:976-977 | the distance lies between the length difference and the longer length, and equals the other length when one string is empty |
| EditDistance.LevZeroIffEqual | nve_data/resolve_vassdrag2.py:972-988 | the distance is zero exactly when the two strings are equal |
| Phonetics.NextRow | nve_data/resolve_vassdrag2.py:981-986 | the inner loop builds the next table row from the previous one, cell by cell, as the recurrence defines it |
| Phonetics.Levenshtein | nve_data/resolve_vassdrag2.py:972-988 | `_levenshtein(a, b)` returns the edit distance of `a` and `b` |
| Phonetics.CleanLetters | nve_data/resolve_vassdrag2.py:1011-1012 | `_clean_letters` keeps only the letters a-z, æ, ø and å of the lowered text |
| Phonetics.CleanLettersIdempotent | nve_data/resolve_vassdrag2.py:1011-1012 | cleaning an already cleaned text changes nothing |
| Phonetics.CommonPrefixLenSpec | nve_data/resolve_vassdrag2.py:995-999 | the counted prefix is common to both texts and cannot be extended |
| Phonetics.StartswithBonus | nve_data/resolve_vassdrag2.py:991-1000 | the bonus is three points per character of the longest common prefix of the two cleaned names |
| Phonetics.LeadingCToK | nve_data/resolve_vassdrag2.py:927-928 | a leading 'c' becomes 'k' and nothing else changes |
| Phonetics.RewriteText | nve_data/resolve_vassdrag2.py:915-928 | the lowered text after the six replacements, in order, and the leading c-to-k rewrite |
| Phonetics.SqueezeRepeats | nve_data/resolve_vassdrag2.py:930-938 | the loop drops a letter that repeats the previous kept character and keeps everything else |
| Phonetics.SqueezeNoDoubled | nve_data/resolve_vassdrag2.py:930-938 | the squeezed text never holds the same letter twice in a row |
| Phonetics.PhoneticSignature | nve_data/resolve_vassdrag2.py:911-938 | `_phonetic_signature` is the squeeze of the rewritten text, empty for an empty text |
| Phonetics.SignatureSpec | nve_data/resolve_vassdrag2.py:911-938 | a signature holds no blank and no hyphen, no doubled letter, and does not start with 'c' |
| Phonetics.StemAllowance | nve_data/resolve_vassdrag2.py:945-951 | 0 edits up to length 3, 1 up to length 6, 2 beyond |
| Phonetics.StemsWithinToleranceSpec | nve_data/resolve_vassdrag2.py:941-953 | false for an empty stem, symmetric, reflexive, and a stem pair within tolerance is at most two edits apart |
| Phonetics.SignatureAllowance | nve_data/resolve_vassdrag2.py:960-966 | 0 edits up to length 4, 1 up to length 8, 2 beyond |
| Phonetics.PhoneticTolerance | nve_data/resolve_vassdrag2.py:956-969 | `(-1, 0)` when a signature is empty, else the allowance for the longer signature and the edit distance |
| Phonetics.SignaturesCloseSpec | nve_data/resolve_vassdrag2.py:853-862 | the test that keeps a signature pair is symmetric and reflexive, and short signatures must be equal to pass |
| Suffixes.CollectSuffixes | nve_data/resolve_vassdrag2.py:257-262 | the suffix list holds each ending of the map and each extra suffix once, longest first |
| Suffixes.FirstMatchIndex | nve_data/resolve_vassdrag2.py:357-358 | the first suffix the lowered word ends with while being longer than it, and no earlier one |
| Suffixes.SplitSuffixSpec | nve_data/resolve_vassdrag2.py:353-361 | stem and tail put together give back the word; a non-empty tail follows a non-empty stem and is a listed suffix the word matches |
| Suffixes.SplitSuffixLongest | nve_data/resolve_vassdrag2.py:357-360 | with the suffixes longest first, the tail is at least as long as any listed suffix the word matches |
| Suffixes.JoinIsConcat | nve_data/resolve_vassdrag2.py:364-374 | for a stripped stem without trailing hyphen and a tail without leading hyphen, joining is plain concatenation |
| Suffixes.SplitJoinRoundTrip | nve_data/resolve_vassdrag2.py:353-374 | joining the parts of a split word gives back the word |
| CategoryNormalization.WordCategory | nve_data/resolve_vassdrag2.py:541-546 | the category of one word: the mapped ending of its known tail, Sami categories collapsed to ELV and VANN |
| CategoryNormalization.NormalizeNameWordwise | nve_data/resolve_vassdrag2.py:536-553 | word for word, a word with a category becomes its stem followed by the category and every other word is kept |
| CategoryNormalization.NormalizeNameCategory | nve_data/resolve_vassdrag2.py:538-549 | the returned category is that of the last categorised word, and is absent exactly when no word has one |
| CategoryNormalization.NormalizeNameStem | nve_data/resolve_vassdrag2.py:555-559 | the stem is the stripped text before the first category token, or the whole normalised name when there is none |
| CategoryNormalization.NormalizeName | nve_data/resolve_vassdrag2.py:523-524 | an empty name gives an empty result without category |
| CategoryNormalization.SwapNormalizedTailSpec | nve_data/resolve_vassdrag2.py:752-769 | two swapped names exactly when the category is ELV, VANN or FJORD and occurs as a token, each the text from the start of the line to its first occurrence followed by one of the other two categories |
| CategoryNormalization.GenerateNormalizedCandidates | nve_data/resolve_vassdrag2.py:564-576 | the loop builds the dictionary from normalised candidate name to category and stem |
| CategoryNormalization.NormalizedCandidatesSpec | nve_data/resolve_vassdrag2.py:571-576 | the keys are the non-empty normalised names in first-insertion order, and each maps to the category and stem of its last candidate |
| IndexPreparation.FirstLetterOf | nve_data/resolve_vassdrag2.py:314-316 | the first clean letter of the name, or else of the clean stem, or nothing |
| IndexPreparation.BucketSpec | nve_data/resolve_vassdrag2.py:297-298 | a lookup bucket holds exactly the indices of the entries with that key, in increasing order |
| IndexPreparation.BuildPreparedIndex | nve_data/resolve_vassdrag2.py:283-350 | the loop builds the prepared entries and the three lookups of the specification function |
| IndexPreparation.BuildStep | nve_data/resolve_vassdrag2.py:293-332 | one round appends the prepared entry and adds its index under each non-empty key |
| IndexPreparation.PreparedIndexWellFormed | nve_data/resolve_vassdrag2.py:334-350 | every index stored in a lookup points at a prepared entry |
| IndexPreparation.LookupExactNavn | nve_data/resolve_vassdrag2.py:731-749 | looking up a name yields, in index order, exactly the entries whose lowered name equals the lowered value, and nothing for an empty value |
| IndexPreparation.LookupExactNormalized | nve_data/resolve_vassdrag2.py:740-749 | the same for the normalised-name lookup |
| IndexPreparation.EntriesWithKeySpec | nve_data/resolve_vassdrag2.py:745-749 | an entry is yielded exactly when it sits at an index with that key |
| PhoneticMatching.AddPairSpec | nve_data/resolve_vassdrag2.py:838-844 | a pair of non-empty signatures is added once; the list stays free of duplicates |
| PhoneticMatching.SignaturePairsSpec | nve_data/resolve_vassdrag2.py:846-849 | the pairs are exactly the distinct combinations of a candidate signature and an entry signature, both non-empty |
| PhoneticMatching.BestDistanceSpec | nve_data/resolve_vassdrag2.py:851-867 | no best distance exactly when no pair is close enough; otherwise it is the least distance among the close pairs |
| PhoneticMatching.BestDistanceBounded | nve_data/resolve_vassdrag2.py:851-864 | a best distance is at most 2 |
| PhoneticMatching.StemBonus | nve_data/resolve_vassdrag2.py:887-894 | 20 for equal stems, 15 at distance 1, and 5 points off per further edit |
| PhoneticMatching.EntryScoreSpec | nve_data/resolve_vassdrag2.py:819-906 | an entry scores exactly when its name differs from the candidate, some signature pair is close and the stems are within tolerance; the score is the prefix bonus, the first-letter penalty, the category bonus, five points off per edit of the least distance among the close pairs, and the stem bonus, and lies within -65 and +25 of the prefix bonus |
| PhoneticMatching.EntryScoreSkipsSameName | nve_data/resolve_vassdrag2.py:826-827 | an entry with the candidate's own name, ignoring case, is skipped |
| PhoneticMatching.PhoneticMatchesSpec | nve_data/resolve_vassdrag2.py:806-819 | nothing for a candidate without signature; otherwise a match for exactly the entries of the first-letter bucket, or of all entries, that score |
| PhoneticMatching.PhoneticMatches | nve_data/resolve_vassdrag2.py:787-908 | the loop over the candidate indices returns the scored matches of the specification function, in index order |
| LegacyNames.LongestEndingUpTo | nve_data/resolve_vassdrag.py:69-75 | the chosen ending is a key of the map that the word ends with, at most n long, and no such key is longer |
| LegacyNames.NormalizeEachWordAt | nve_data/resolve_vassdrag.py:64-77 | the word loop gives one output per word, each the word normalised by its own ending |
| LegacyNames.NormalizeWords | nve_data/resolve_vassdrag.py:61-77 | the loop over words with the endings sorted longest first gives each word normalised by its longest ending |
| LegacyLookup.ExactMatchOf | nve_data/resolve_vassdrag.py:82-100 | an exact match is always an entry of the index |
| LegacyLookup.FieldsFuzzy | nve_data/resolve_vassdrag.py:218-230 | every match of one entry is for that entry, on a searched non-empty field, with the phonetic distance of that field, within the limit |
| LegacyLookup.FieldsFuzzyBoth | nve_data/resolve_vassdrag.py:218 | an entry's matches are those on «navn» followed by those on «navn_normalisert» |
| LegacyLookup.CollectFuzzy | nve_data/resolve_vassdrag.py:216-230 | every collected match is a fuzzy hit on an entry of the index |
| LegacyLookup.FirstPerVassdragSorted | nve_data/resolve_vassdrag.py:233-241 | dropping later matches of a number keeps the list sorted by distance |
| LegacyLookup.FuzzyEntry | nve_data/resolve_vassdrag.py:218-230 | the inner loop appends the entry's fuzzy matches to the list |
| LegacyLookup.KeepFirstPerVassdrag | nve_data/resolve_vassdrag.py:236-241 | the dedup loop keeps the first match per watercourse number, in order |
| LegacyLookup.PrefixStep | nve_data/resolve_vassdrag.py:274-286 | one field check adds the key (number, field) exactly when the field is a prefix hit |
| LegacyLookup.PrefixStepKept | nve_data/resolve_vassdrag.py:274-286 | one field check keeps every kept match a prefix hit of an index entry, once per key |
| LegacyLookup.PrefixFieldsKept | nve_data/resolve_vassdrag.py:273-286 | checking both fields of an entry keeps that invariant |
| LegacyLookup.PrefixScanSpec | nve_data/resolve_vassdrag.py:267-288 | the scan keeps only prefix hits, once per key, and its keys are exactly the keys of all prefix hits |
| LegacyLookup.PrefixEntry | nve_data/resolve_vassdrag.py:273-286 | the inner loop over both fields appends the entry's new prefix hits and keeps the seen set equal to their keys |
| LegacyVariants.SuffixLoopScores | nve_data/resolve_vassdrag.py:432-467 | the four spellings per ending score within the bounds of their four scores |
| LegacyVariants.WithEndingsScores | nve_data/resolve_vassdrag.py:486-507 | a stem with each ending of a list scores that list's one score |
| LegacyVariants.StemOnlyScores | nve_data/resolve_vassdrag.py:418-424 | the normalised stem and the bare stem score from 82 to 88 |
| LegacyVariants.NoBareStem | nve_data/resolve_vassdrag.py:411-472 | the 30-point bare-stem variant is never made, because the stem differs from the name only when an ending was cut |
| LegacyVariants.ShortStemScores | nve_data/resolve_vassdrag.py:496-507 | the short waterfall stem variants score from 25 to 35 |
| LegacyVariants.DirectionalOfWordsScores | nve_data/resolve_vassdrag.py:376-391 | the direction-free variants score 86 or 87 |
| LegacyVariants.IfChangedScores | nve_data/resolve_vassdrag.py:360-391 | a variant made only when the rewritten text changed scores its given score |
| LegacyVariants.HyphenVariantsScores | nve_data/resolve_vassdrag.py:393-396 | the hyphen-free variant scores 80 |
| LegacyVariants.EarlyScores | nve_data/resolve_vassdrag.py:344-396 | the variants of steps 1b to 4 score from 80 to 99 |
| LegacyVariants.AppendSuffixLoop | nve_data/resolve_vassdrag.py:432-467 | one `for suffix in …` loop appends the four spellings per ending |
| LegacyVariants.AppendWithEndings | nve_data/resolve_vassdrag.py:486-493 | one waterfall ending loop appends the stem with each ending |
| LegacyVariants.FindFirstEnding | nve_data/resolve_vassdrag.py:404-409 | the loop with `break` finds the first listed ending the text ends with |
| LegacyVariants.AppendStemVariants | nve_data/resolve_vassdrag.py:400-472 | the stem step appends the specification's stem variants |
| LegacyVariants.AppendShortStem | nve_data/resolve_vassdrag.py:496-507 | the short-stem block appends the specification's variants |
| LegacyVariants.AppendFossVariants | nve_data/resolve_vassdrag.py:474-509 | the waterfall step appends the variants of the first matching waterfall ending only |
| LegacyVariants.AppendAddedEndings | nve_data/resolve_vassdrag.py:344-358 | step 1b appends the specification's added-ending variants |
| LegacyVariants.AppendNormalized | nve_data/resolve_vassdrag.py:360-374 | step 2 appends the specification's normalised variants |
| LegacyVariants.AppendDirectional | nve_data/resolve_vassdrag.py:376-391 | step 3 appends the specification's direction-free variants |
| LegacyVariants.AppendDirectionalWords | nve_data/resolve_vassdrag.py:378-391 | step 3 on the words of the name appends the specification's variants |
| LegacyVariants.AppendHyphen | nve_data/resolve_vassdrag.py:393-396 | step 4 appends the hyphen-free variant when the name holds a hyphen |
| LegacyVariants.AppendStemOnly | nve_data/resolve_vassdrag.py:418-424 | the cut-ending block appends the normalised stem and the bare stem |
| LegacyNames.LevenshteinDistance | nve_data/resolve_vassdrag.py:165-187 | the two-row dynamic programme, with the shorter string moved second by the recursive swap, returns the edit distance `Lev`, whose symmetry, zero-iff-equal and empty-string facts are proved in `EditDistance` |
| CandidateGeneration.AaVariant | nve_data/resolve_vassdrag2.py:402-408 | replacing each "aa" by one letter never lengthens the candidate and keeps a non-empty one non-empty |
| CandidateGeneration.ContainsAa | nve_data/resolve_vassdrag2.py:401 | `"aa" in candidate.lower()` holds exactly when an "aa" in any case occurs |
| CandidateGeneration.AddSpelling | nve_data/resolve_vassdrag2.py:398-411 | adding a spelling keeps the list as a prefix, puts the spelling in, and keeps the list free of duplicates and empties |
| CandidateGeneration.AddAll | nve_data/resolve_vassdrag2.py:437-438 | adding each candidate in turn keeps the list as a prefix and free of duplicates and empties |
| CandidateGeneration.Joined | nve_data/resolve_vassdrag2.py:496-497 | the joined names are the variants, each joined with the ending, in order |
| CandidateGeneration.AddAllMember | nve_data/resolve_vassdrag2.py:391-395 | every candidate that is not blank ends up in the list, stripped |
| CandidateGeneration.FirstCandidate | nve_data/resolve_vassdrag2.py:463 | the first candidate added to the empty list is the stripped name |
| CandidateGeneration.NonDirection | nve_data/resolve_vassdrag2.py:454 | the kept words are words of the text that are not direction words |
| CandidateGeneration.AddSVariants | nve_data/resolve_vassdrag2.py:432-438 | `_add_s_variants` keeps the list as a prefix and free of duplicates and empties |
| CandidateGeneration.AddDirectionless | nve_data/resolve_vassdrag2.py:457-461 | `_add_directionless` keeps the list as a prefix and free of duplicates and empties |
| CandidateGeneration.AddWithVariants | nve_data/resolve_vassdrag2.py:478-480 | adding a candidate with its s-variants and its directionless form keeps the list as a prefix and free of duplicates and empties |
| CandidateGeneration.StemBlock | nve_data/resolve_vassdrag2.py:466-471 | the stem block keeps the list as a prefix and free of duplicates and empties |
| CandidateGeneration.DalBlock | nve_data/resolve_vassdrag2.py:474-484 | the DAL block keeps the list as a prefix and free of duplicates and empties |
| CandidateGeneration.ReguleringBlock | nve_data/resolve_vassdrag2.py:487-490 | the `reguleringen` block keeps the list as a prefix and free of duplicates and empties |
| CandidateGeneration.VassdragetBlock | nve_data/resolve_vassdrag2.py:493-501 | the `vassdraget` block keeps the list as a prefix and free of duplicates and empties |
| CandidateGeneration.LastWordBlock | nve_data/resolve_vassdrag2.py:504-511 | the last-word block keeps the list as a prefix and free of duplicates and empties |
| CandidateGeneration.EarlyBlocks | nve_data/resolve_vassdrag2.py:463-484 | the blocks before the `vassdraget` block start with the stripped name and give a list free of duplicates and empties |
| CandidateGeneration.JoinedMember | nve_data/resolve_vassdrag2.py:496-497 | a stripped variant not ending in a hyphen, with "vassdraget" appended, is among the candidates |
| CandidateGeneration.VassdragetBlockPrefix | nve_data/resolve_vassdrag2.py:493-497 | when the base is the name itself, the block starts by adding its s-variants joined with "vassdraget" |
| CandidateGeneration.VassdragetBlockMembers | nve_data/resolve_vassdrag2.py:493-497 | the block adds the base with "vassdraget", and with "svassdraget" when the base does not end in s |
| CandidateGeneration.CandidateList.AddNew | nve_data/resolve_vassdrag2.py:396-411 | the list after adding one spelling if unseen is `AddSpelling` of the list before |
| CandidateGeneration.CandidateList.AddEach | nve_data/resolve_vassdrag2.py:437-438 | the list after `for x in xs: _add(x)` is `AddAll` of the list before |
| CandidateGeneration.CandidateList.AddEachJoined | nve_data/resolve_vassdrag2.py:496-497 | the list after adding each joined variant is the specification's |
| CandidateGeneration.CandidateList.AddWithVariantsOf | nve_data/resolve_vassdrag2.py:478-480 | the list after adding a candidate with its variants is the specification's |
| CandidateGeneration.CandidateList.AddStemBlock | nve_data/resolve_vassdrag2.py:466-471 | the list after the stem block is the specification's |
| CoordinateBonus.RankOf | nve_data/resolve_vassdrag2.py:717 | the rank of a result is the first position holding it in the sorted candidates, and there is none when it has no coordinates |
| CoordinateBonus.RankOfRanked | nve_data/resolve_vassdrag2.py:717 | with each result at most once among the candidates, the result at position k has rank k |
| CoordinateBonus.RankingSorted | nve_data/resolve_vassdrag2.py:714 | the sorted candidates go by rising distance |
| CoordinateBonus.RankedBonus | nve_data/resolve_vassdrag2.py:714-722 | the result at rank k gets the bonus of rank k |
| CoordinateBonus.NearerGainsMore | nve_data/resolve_vassdrag2.py:714-722 | a strictly nearer result gains at least as much as a farther one |
| CoordinateBonus.FiveRanksSuffice | nve_data/resolve_vassdrag2.py:718-720 | the loop stops after five ranks without changing what follows, since later bonuses are 0 |
| CoordinateBonus.CollectCandidates | nve_data/resolve_vassdrag2.py:699-707 | the first loop collects the candidates of the specification and leaves the results alone |
| CoordinateBonus.AwardBonuses | nve_data/resolve_vassdrag2.py:715-722 | the bonus loop adds each rank's bonus to the score and the coordinate bonus of its result |
| EditDistance.LevSelf | nve_data/resolve_vassdrag2.py:972-988 | a string is at distance 0 from itself |
| EditDistance.LevZeroImpliesEqual | nve_data/resolve_vassdrag2.py:972-988 | distance 0 only between equal strings |
| CategoryNormalization.NormalizeWords | nve_data/resolve_vassdrag2.py:540-551 | one normalised word per word, each normalised on its own |
| CategoryNormalization.Categories | nve_data/resolve_vassdrag2.py:541-546 | one category (or none) per word, each that word's own |
| CategoryNormalization.FirstTokenFrom | nve_data/resolve_vassdrag2.py:557 | the first position from k where a category name starts, and no such position before it |
| CategoryNormalization.LineStart | nve_data/resolve_vassdrag2.py:557 | the start of the line holding position k: no newline between them, and a newline just before it unless at 0 |
| CategoryNormalization.NormalizeWordIsWord | nve_data/resolve_vassdrag2.py:540-551 | a normalised word is a non-empty word without whitespace when the categories hold none |
| CategoryNormalization.LastSomeSpec | nve_data/resolve_vassdrag2.py:538-549 | the last category is none exactly when no word has one, and otherwise the category of the last word that has one |
| CategoryNormalization.NormalizedTextNoNewline | nve_data/resolve_vassdrag2.py:536-553 | the normalised name holds no newline, so the search in it runs on one line |
| CategoryNormalization.StemOfSpec | nve_data/resolve_vassdrag2.py:556-559 | on one line, the stem is the stripped text before the first category name, or the whole name when there is none |
| CategoryNormalization.LineStartNoNewline | nve_data/resolve_vassdrag2.py:557 | without a newline before k the line starts at 0 |
| CategoryNormalization.NormalizeAll | nve_data/resolve_vassdrag2.py:572-573 | one normalisation per candidate, in order |
| CategoryNormalization.Collect | nve_data/resolve_vassdrag2.py:571-576 | the dict built from the normalisations is a well-formed insertion-ordered dict |
| CategoryNormalization.CollectKeys | nve_data/resolve_vassdrag2.py:574-575 | its keys are the non-empty normalised names, each once, in order of first appearance |
| CategoryNormalization.CollectValues | nve_data/resolve_vassdrag2.py:575 | a normalised name maps to the category and stem of its last occurrence |
| IndexPreparation.LookupAppend | nve_data/resolve_vassdrag2.py:297-308 | one more entry adds its index under its key, unless the key is empty |
| IndexPreparation.BucketAppend | nve_data/resolve_vassdrag2.py:297-298 | the bucket of a key gains the new index exactly when the new entry has that key |
| IndexPreparation.NavnKeys | nve_data/resolve_vassdrag2.py:294-296 | the «navn» keys are the lowered names of the entries, in order |
| IndexPreparation.NormalizedKeys | nve_data/resolve_vassdrag2.py:300-306 | the «navn_normalisert» keys are the lowered normalised names, in order |
| IndexPreparation.FirstLetterKeys | nve_data/resolve_vassdrag2.py:314-318 | the first-letter keys are the first letters of the prepared entries, in order |
| IndexPreparation.PrepareAll | nve_data/resolve_vassdrag2.py:293-332 | one prepared entry per entry |
| IndexPreparation.PrepareAllSpec | nve_data/resolve_vassdrag2.py:320-322 | each prepared entry carries its own entry |
| IndexPreparation.Range | nve_data/resolve_vassdrag2.py:341 | `range(len(prepared_entries))` is 0 to n-1 in order |
| IndexPreparation.PrepareOne | nve_data/resolve_vassdrag2.py:294-332 | preparing one entry computes the specification's prepared entry |
| IndexPreparation.LookupOfBounded | nve_data/resolve_vassdrag2.py:293-308 | every index stored in a lookup is an index of an entry |
| IndexPreparation.EntriesAt | nve_data/resolve_vassdrag2.py:745-749 | the entries behind a list of indices, one per index, in order |
| IndexPreparation.BucketEntries | nve_data/resolve_vassdrag2.py:293-308 | the entries behind a key's bucket are the entries with that key, in index order |
| IndexPreparation.EntriesWithKeyAbsent | nve_data/resolve_vassdrag2.py:745-749 | a key no entry has finds no entries |
| PhoneticMatching.CandidateIndices | nve_data/resolve_vassdrag2.py:811-817 | the indices to scan are indices of prepared entries |
| PhoneticMatching.ScanIndicesSpec | nve_data/resolve_vassdrag2.py:819-906 | a match is found exactly when some scanned index has an entry that scores |
| PhoneticMatching.ScanBucket | nve_data/resolve_vassdrag2.py:819-906 | the scan loop appends the specification's matches |
| PhoneticMatching.MakeProbe | nve_data/resolve_vassdrag2.py:794-803 | the candidate's signature, normalisation, clean stem and stem signature are the specification's |
| PhoneticMatching.ScoreEntry | nve_data/resolve_vassdrag2.py:820-906 | one entry's score, or its rejection, is the specification's |
| PhoneticMatching.BestSignatureDistance | nve_data/resolve_vassdrag2.py:851-864 | the loop over signature pairs finds the specification's best accepted distance |
| PhoneticMatching.AdjustmentFor | nve_data/resolve_vassdrag2.py:877-894 | the adjustment built from the prefix bonus, the first-letter, category, distance and stem terms is the specification's |
| Phonetics.KeepClean | nve_data/resolve_vassdrag2.py:1011-1012 | only letters a to z, æ, ø and å are kept, and the text does not grow |
| Phonetics.KeepCleanOfClean | nve_data/resolve_vassdrag2.py:1011-1012 | a text of those letters is kept as it is |
| Phonetics.CommonPrefixLen | nve_data/resolve_vassdrag2.py:995-999 | the common prefix is no longer than either text |
| Phonetics.Squeeze | nve_data/resolve_vassdrag2.py:930-938 | squeezing repeats never lengthens the text and keeps a non-empty one non-empty |
| Phonetics.SqueezeChars | nve_data/resolve_vassdrag2.py:930-938 | squeezing adds no character |
| Phonetics.SqueezeHead | nve_data/resolve_vassdrag2.py:930-938 | the first character is always kept |
| Phonetics.RewritesNoBlankOrHyphen | nve_data/resolve_vassdrag2.py:916-925 | after the rewrites no blank and no hyphen is left |
| MatchScoring.Store | nve_data/resolve_vassdrag2.py:648-650 | storing a result keeps the best-per-number dict well formed |
| MatchScoring.StoreAll | nve_data/resolve_vassdrag2.py:648-650 | storing a run of results keeps the dict well formed |
| MatchScoring.Results | nve_data/resolve_vassdrag2.py:639-647 | one result per hit, each the result `register` builds for it |
| MatchScoring.RegisterAll | nve_data/resolve_vassdrag2.py:606-655 | a run of `register` calls keeps the dict well formed |
| MatchScoring.RegisterAllAppend | nve_data/resolve_vassdrag2.py:606-655 | registering two runs of hits is registering the first, then the second |
| MatchScoring.RegisterAllIsStoreAll | nve_data/resolve_vassdrag2.py:606-655 | registering hits is storing the results built from them |
| MatchScoring.Vnrs | nve_data/resolve_vassdrag2.py:607 | the dict keys the results go under, one per result, in order |
| MatchScoring.BestForKept | nve_data/resolve_vassdrag2.py:648-655 | a stored result stays best when the new one is for another number or does not beat it |
| MatchScoring.BestForNew | nve_data/resolve_vassdrag2.py:648-650 | a new result becomes best for its number when it beats every earlier one |
| MatchScoring.StoreSummarizes | nve_data/resolve_vassdrag2.py:648-655 | each store keeps the dict the summary of all registered results |
| MatchScoring.StoreKeys | nve_data/resolve_vassdrag2.py:648-650 | the dict's keys are the numbers registered, each once, in order of first registration |
| MatchScoring.StoreValues | nve_data/resolve_vassdrag2.py:648-650 | every stored result is the kept result of its number |
| MatchScoring.StoreAllSummarizes | nve_data/resolve_vassdrag2.py:603-655 | storing a run into the empty dict gives its summary |
| MatchScoring.ValuesSummary | nve_data/resolve_vassdrag2.py:691 | `list(best_per_vassdrag.values())` holds one best result per registered number, in order of first registration |
| MatchScoring.EntryHits | nve_data/resolve_vassdrag2.py:659-662 | one hit per entry found, each with the phase's score, candidate and match type |
| MatchScoring.Items | nve_data/resolve_vassdrag2.py:665 | the items of the normalised-candidate dict in insertion order, each with its category |
| MatchScoring.ScoredHits | nve_data/resolve_vassdrag2.py:688-689 | one phonetic hit per match, scoring 50 plus its adjustment |
| MatchScoring.NavnHitsMember | nve_data/resolve_vassdrag2.py:657-662 | every exact «navn» hit of a candidate is among the phase 4 hits, at 100 points |
| MatchScoring.KeptWhenStored | nve_data/resolve_vassdrag2.py:648-650 | every registered result leaves a kept result for its number scoring at least as much |
| MatchScoring.KeptWhenHit | nve_data/resolve_vassdrag2.py:606-691 | every hit leaves a returned result for its number scoring at least as much as the hit |
| MatchScoring.NavnHitsFirst | nve_data/resolve_vassdrag2.py:657-689 | the phase 4 hits are registered before those of phases 5 and 6 |
| MatchScoring.ExactNameHit | nve_data/resolve_vassdrag2.py:588-662 | an exact «navn» match of the stripped name is among the hits, at 100 points |
| MatchScoring.BestPerVassdrag.RegisterEntries | nve_data/resolve_vassdrag2.py:659-662 | the loop over entries found registers each with the phase's score |
| MatchScoring.BestPerVassdrag.RegisterScored | nve_data/resolve_vassdrag2.py:688-689 | the loop over phonetic matches registers each with 50 plus its adjustment |
| MatchScoring.BestPerVassdrag.NormalizedNamePhase | nve_data/resolve_vassdrag2.py:666-681 | phase 5 for one normalised name registers its exact hits at 90, then each tail swap's hits at 60 |
| MatchScoring.BestPerVassdrag.PhoneticCandidate | nve_data/resolve_vassdrag2.py:685-689 | phase 6 for one candidate registers its phonetic matches |
| NameSplitting.AfterToken | nve_data/resolve_vassdrag2.py:192 | an alternative of the pattern ends after the leading blanks and inside the text |
| NameSplitting.SeparatorEnd | nve_data/resolve_vassdrag2.py:192 | a separator match starting at i ends after i and inside the text |
| NameSplitting.SplitFrom | nve_data/resolve_vassdrag2.py:192-194 | cutting at separators gives at least one piece |
| NameSplitting.SubSplitFrom | nve_data/resolve_vassdrag2.py:192-194 | substituting a text for each separator is joining the cut pieces with that text |
| NameSplitting.SubFromPlain | nve_data/resolve_vassdrag2.py:192 | positions without whitespace start no separator and are copied |
| NameSplitting.NonEmptyParts | nve_data/resolve_vassdrag2.py:194-195 | the kept parts are non-empty |
| Text.StrippedPiecesMembers | nve_data/resolve_vassdrag2.py:210 | every kept piece is non-empty, stripped and the stripped form of one of the given pieces |
| NameSplitting.PieceOutputs | nve_data/resolve_vassdrag2.py:232-252 | one output, or none, per piece handled |
| NameSplitting.PieceStep | nve_data/resolve_vassdrag2.py:233-252 | the loop body's branches give the specification's output for one piece |
| NameSplitting.PieceOutputsMembers | nve_data/resolve_vassdrag2.py:232-252 | a name is produced exactly when some piece produces it |
| NameSplitting.StrippedPiecesChars | nve_data/resolve_vassdrag2.py:210 | the pieces are non-empty, hyphen-free and made of the name's characters |
| NameSplitting.PiecesChars | nve_data/resolve_vassdrag2.py:210 | the pieces of a name are non-empty, stripped, hyphen-free and made of its characters |
| NameSplitting.PieceOutputShape | nve_data/resolve_vassdrag2.py:233-252 | a hyphen-free piece gives itself, or itself glued to the common ending |
| NameSplitting.PieceOutputChars | nve_data/resolve_vassdrag2.py:233-252 | every combined name is non-empty and made of the piece's and the ending's characters |
| NameSplitting.CombinedChars | nve_data/resolve_vassdrag2.py:230-254 | the combining loop keeps at least one name, and only non-empty names from the name's characters |
| NameSplitting.EndingChars | nve_data/resolve_vassdrag2.py:214-220 | the common ending is made of the name's characters |
| NameSplitting.PiecesOfPair | nve_data/resolve_vassdrag2.py:210 | a name made of two hyphen-free names joined by a hyphen is cut into those two |
| NameSplitting.PairOutputs | nve_data/resolve_vassdrag2.py:232-252 | for two pieces the loop's outputs are the first piece's, then the second's |
| NameSplitting.ExpansionOfPair | nve_data/resolve_vassdrag2.py:214-254 | for `a-b` whose last piece has an ending or is one, the combining loop runs with that ending |
| NameSplitting.SubFromChars | nve_data/resolve_vassdrag2.py:192 | the substitution adds no character beyond those of the text and the replacement |
| NameSplitting.NonEmptyPartsChars | nve_data/resolve_vassdrag2.py:194-195 | stripping the parts keeps them free of commas and slashes and within the text's characters |
| NameSplitting.ExpandAllChars | nve_data/resolve_vassdrag2.py:197-201 | every expanded name is non-empty, free of commas and slashes and made of the text's characters |
| NameSplitting.SubOfPlain | nve_data/resolve_vassdrag2.py:192 | text without whitespace comes out of the substitution unchanged |
| NameSplitting.PartsOfCommaText | nve_data/resolve_vassdrag2.py:192-195 | once the separators are commas and there is no slash, the parts are the non-empty comma pieces |
| NameSplitting.NonEmptyPartsOfPlain | nve_data/resolve_vassdrag2.py:194-195 | a plain name is its own only part |
| NameSplitting.ExpansionOfPlain | nve_data/resolve_vassdrag2.py:207-208 | a plain name has no hyphen and is its own expansion |
| NameSplitting.ExpandAllOfOne | nve_data/resolve_vassdrag2.py:197-201 | one plain part expands to itself |
| NameSplitting.ExpandAllOfTwo | nve_data/resolve_vassdrag2.py:197-201 | two plain parts expand to themselves |
| NameSplitting.PartsOfPlain | nve_data/resolve_vassdrag2.py:192-195 | a plain name gives itself as the only part |
| NameSplitting.SeparatorOg | nve_data/resolve_vassdrag2.py:192 | " og " followed by a non-blank is a separator match |
| NameSplitting.SubOfPairTail | nve_data/resolve_vassdrag2.py:192 | from the separator on, the rest of "A og B" becomes ",B" |
| NameSplitting.SubOfPair | nve_data/resolve_vassdrag2.py:192 | the separator " og " between two plain names becomes a comma |
| NameSplitting.CommaPair | nve_data/resolve_vassdrag2.py:194-195 | "A,B" gives the two parts A and B |
| Resolver.StripSingleSpaced | nve_data/resolve_vassdrag2.py:146 | stripping keeps a single-spaced text single-spaced |
| Resolver.CollapseOfSingleSpaced | nve_data/resolve_vassdrag2.py:145 | without two whitespace characters side by side, collapsing changes nothing |
| Resolver.WithBonus | nve_data/resolve_vassdrag2.py:179-180 | the coordinate bonus is applied exactly when a coordinate is given |
| Resolver.ResolveWith | nve_data/resolve_vassdrag2.py:143-186 | `resolve_vassdrag` with its suffix table built returns the specification's results |
| Suffixes.LongestExists | nve_data/resolve_vassdrag2.py:262 | a non-empty set of endings has one of greatest length |
| Suffixes.LongestFirstOrder | nve_data/resolve_vassdrag2.py:262 | sorting by length, longest first, lists each ending of the set exactly once |
| Suffixes.JoinStemSuffix | nve_data/resolve_vassdrag2.py:364-374 | a blank stem gives the ending alone; otherwise the result keeps all but at most one character of the stripped stem |
| EntityMatching.ExistingAttrsOf | steg3_identifiser_entiteter.py:491-500 | the dict built from the existing attributes is a well-formed insertion-ordered dict |
| EntityMatching.Override | steg3_identifiser_entiteter.py:503-505 | overriding with the lookup's values keeps the dict well formed |
| EntityMatching.MarkMatch | steg3_identifiser_entiteter.py:508-516 | setting `match_found` keeps the dict well formed |
| EntityMatching.FinalAttrsOf | steg3_identifiser_entiteter.py:488-516 | `final_attrs_to_write` is a well-formed insertion-ordered dict |
| EntityMatching.ExistingKeys | steg3_identifiser_entiteter.py:496-500 | a key is kept exactly when some existing attribute has it and it is no spelling of `navn` |
| EntityMatching.ExistingValue | steg3_identifiser_entiteter.py:496-500 | a kept key holds the value of its last occurrence |
| EntityMatching.OtherKey | steg3_identifiser_entiteter.py:515 | a readable existing attribute other than `navn` and `match_found` counts as another key |
| EntityMatching.NoOtherKey | steg3_identifiser_entiteter.py:515 | with only `navn` and `match_found` attributes there is no other key |
| EntityMatching.TagText | steg3_identifiser_entiteter.py:540 | the output tag starts with `<`, the type and the first attribute, and ends with `>` |
| NameSplitting.SubIsJoinOfSplit | nve_data/resolve_vassdrag2.py:192-193 | replacing each separator (`og`, `&` or `+/` between blanks, and `/`) by a comma is the same as cutting at the separators and joining with commas |
| NameSplitting.PartsSpec | nve_data/resolve_vassdrag2.py:192-195 | every part is non-empty, holds no comma and no slash, and is made of characters of the text |
| NameSplitting.PartsOfPair | nve_data/resolve_vassdrag2.py:192-195 | `a og b` splits into the two parts `a` and `b` |
| NameSplitting.SplitNames | nve_data/resolve_vassdrag2.py:189-201 | `split_vassdrag_names` returns the expansions of the parts, concatenated in order |
| NameSplitting.ExpandParts | nve_data/resolve_vassdrag2.py:197-199 | the loop extends the result with each part's expansion, in the parts' order |
| NameSplitting.SplitNamesSpec | nve_data/resolve_vassdrag2.py:189-201 | every returned name is non-empty, holds no comma and no slash, and is made of characters of the text |
| NameSplitting.SplitNamesOfPlain | nve_data/resolve_vassdrag2.py:189-201 | a name without separators, commas, slashes or hyphens comes back alone |
| NameSplitting.SplitNamesOfPair | nve_data/resolve_vassdrag2.py:189-201 | `a og b` gives the two names `a` and `b` when neither has a hyphen |
| NameSplitting.ExpandHyphenated | nve_data/resolve_vassdrag2.py:204-254 | `_expand_hyphenated` returns the expansion of the specification function |
| NameSplitting.CombineLoop | nve_data/resolve_vassdrag2.py:230-254 | the loop returns the distinct outputs of the pieces in order, each piece either kept or joined with the last piece's tail |
| NameSplitting.DedupLoop | nve_data/resolve_vassdrag2.py:222-228 | the loop keeps each piece once, in order of first appearance |
| NameSplitting.ExpansionSpec | nve_data/resolve_vassdrag2.py:204-254 | the expansion holds at least one name, no name twice, is the name itself when it has no hyphen, and consists of non-empty names made of the name's characters |
| NameSplitting.ExpansionWithEnding | nve_data/resolve_vassdrag2.py:230-254 | for `a-b` where `b` has a known tail and `a` has none: `a` joined with the tail, then `b` |
| NameSplitting.ExpansionEndingOnly | nve_data/resolve_vassdrag2.py:216-220 | for `a-b` where `b` is itself a suffix: the single name `a` followed by `b` |
| NameSplitting.ExpansionWithoutEnding | nve_data/resolve_vassdrag2.py:221-228 | for `a-b` where `b` has no tail and is no suffix: the distinct pieces |
| CandidateGeneration.GoodSpec | nve_data/resolve_vassdrag2.py:388-395 | the candidate list holds only non-empty candidates, none twice |
| CandidateGeneration.AeVariant | nve_data/resolve_vassdrag2.py:397 | the variant has the same length and no 'æ' |
| CandidateGeneration.AaVariantSpec | nve_data/resolve_vassdrag2.py:401-408 | the aa variant is shorter exactly when some 'aa', ignoring case, occurs, and is the text itself otherwise |
| CandidateGeneration.AddOne | nve_data/resolve_vassdrag2.py:391-411 | `_add` keeps the list, adds the stripped candidate, and keeps the list free of duplicates and empties |
| CandidateGeneration.AddOneIdempotent | nve_data/resolve_vassdrag2.py:391-395 | adding the same candidate twice is the same as adding it once |
| CandidateGeneration.AddOneSpellings | nve_data/resolve_vassdrag2.py:396-411 | the æ and aa spellings of a new candidate are added as well |
| CandidateGeneration.IterSVariants | nve_data/resolve_vassdrag2.py:413-430 | the loop returns the specification's s-variants |
| CandidateGeneration.SVariantsSpec | nve_data/resolve_vassdrag2.py:413-430 | none for a blank base; otherwise the stripped base first, then the form with the final s added or dropped, without duplicates |
| CandidateGeneration.SVariantsAddS | nve_data/resolve_vassdrag2.py:423-424 | a base not ending in s gets the variant with s added |
| CandidateGeneration.SVariantsDropS | nve_data/resolve_vassdrag2.py:419-422 | a base ending in s gets the variant without it |
| CandidateGeneration.StripDirectionWordsSpec | nve_data/resolve_vassdrag2.py:450-455 | a text of at most one word is kept; otherwise the words that are not direction words, in order |
| CandidateGeneration.OriginalCandidates | nve_data/resolve_vassdrag2.py:377-513 | no candidates exactly for a blank name; otherwise the stripped name first, with no candidate twice and none empty |
| CandidateGeneration.OriginalCandidatesVassdraget | nve_data/resolve_vassdrag2.py:492-501 | a name without known tail gets its `vassdraget` candidate, and the `svassdraget` one when it does not end in s |
| CandidateGeneration.CandidateList.Add | nve_data/resolve_vassdrag2.py:391-411 | the list after `_add` is `AddOne` of the list before |
| CandidateGeneration.CandidateList.AddSVariantsOf | nve_data/resolve_vassdrag2.py:432-438 | the list after `_add_s_variants` is the specification's |
| CandidateGeneration.CandidateList.AddDirectionlessOf | nve_data/resolve_vassdrag2.py:457-461 | the list after `_add_directionless` is the specification's |
| CandidateGeneration.CandidateList.AddDalBlock | nve_data/resolve_vassdrag2.py:474-484 | the list after the DAL block is the specification's |
| CandidateGeneration.CandidateList.AddReguleringBlock | nve_data/resolve_vassdrag2.py:487-490 | the list after the `reguleringen` block is the specification's |
| CandidateGeneration.CandidateList.AddVassdragetBlock | nve_data/resolve_vassdrag2.py:493-501 | the list after the `vassdraget` block is the specification's |
| CandidateGeneration.CandidateList.AddLastWordBlock | nve_data/resolve_vassdrag2.py:504-511 | the list after the last-word block is the specification's |
| CandidateGeneration.GenerateOriginalCandidates | nve_data/resolve_vassdrag2.py:377-513 | `_generate_original_candidates` returns the specification's candidate list |
| MatchScoring.AdjustedSpec | nve_data/resolve_vassdrag2.py:606-623 | the adjusted score is never above the raw score (or 0), never more than the number and length penalties below it, and equals the raw score when no penalty applies |
| MatchScoring.AdjustedMonotone | nve_data/resolve_vassdrag2.py:606-623 | a higher raw score never gives a lower adjusted score |
| MatchScoring.AdjustedLongerNumber | nve_data/resolve_vassdrag2.py:609-612 | a longer watercourse number never gives a higher adjusted score |
| MatchScoring.KeptForSome | nve_data/resolve_vassdrag2.py:648-650 | a number has a kept result exactly when some registered result carries it |
| MatchScoring.KeptForBest | nve_data/resolve_vassdrag2.py:648-650 | the kept result of a number is registered, has the highest score among that number's results, and is the first to reach it |
| MatchScoring.BestValuesSpec | nve_data/resolve_vassdrag2.py:603-691 | the returned results carry the registered numbers in first-registration order, one result per number, each the best for its number |
| MatchScoring.RegisteredSpec | nve_data/resolve_vassdrag2.py:639-650 | registering hits keeps one best result per number, none of them with a coordinate bonus yet |
| MatchScoring.BestPerVassdrag.Register | nve_data/resolve_vassdrag2.py:606-655 | the dictionary after `register` stores the adjusted result under its number when the number is new or the score is higher |
| MatchScoring.BestPerVassdrag.NavnPhase | nve_data/resolve_vassdrag2.py:657-662 | the exact-name phase registers 100-point hits for every candidate and every entry with that name |
| MatchScoring.BestPerVassdrag.NormalizedPhase | nve_data/resolve_vassdrag2.py:664-681 | the normalised phase registers 90-point hits per normalised name and 60-point hits per swapped tail |
| MatchScoring.BestPerVassdrag.PhoneticPhase | nve_data/resolve_vassdrag2.py:683-689 | the phonetic phase registers `50 + adjustment` for every phonetic match of every candidate |
| MatchScoring.ScoreSingleName | nve_data/resolve_vassdrag2.py:579-691 | `_score_single_name` returns the specification's best results |
| MatchScoring.ScoreSingleNameSpec | nve_data/resolve_vassdrag2.py:603-691 | of all hits of the three phases, one best result per number is returned, without coordinate bonus |
| MatchScoring.ExactNameKept | nve_data/resolve_vassdrag2.py:657-662 | an entry carrying the stripped name exactly is represented by a result for its number scoring at least the exact hit's adjusted score |
| CoordinateBonus.Candidates | nve_data/resolve_vassdrag2.py:701-707 | the pairs of the results with numeric coordinates and their distances, in result order |
| CoordinateBonus.RankingSpec | nve_data/resolve_vassdrag2.py:714 | the ranking holds each result with coordinates once, sorted by distance, ties in result order |
| CoordinateBonus.BonusShape | nve_data/resolve_vassdrag2.py:715-722 | each result gets a bonus of 25, 20, 15, 10, 5 or 0 added to its score and to its coordinate bonus |
| CoordinateBonus.NoCoordinatesNoBonus | nve_data/resolve_vassdrag2.py:704-705 | a result without numeric coordinates is unchanged |
| CoordinateBonus.BonusIffTopFive | nve_data/resolve_vassdrag2.py:715-720 | a result with coordinates gets a bonus exactly when it is among the five nearest |
| CoordinateBonus.NearerNotLess | nve_data/resolve_vassdrag2.py:714-718 | a strictly nearer result never gets a smaller bonus |
| CoordinateBonus.NearestGetsMost | nve_data/resolve_vassdrag2.py:713-718 | the first-ranked result is a nearest one, every result with coordinates before it is strictly farther, and it gets 25 points |
| Sorting.SortByFirst | nve_data/resolve_vassdrag2.py:713 | the stable sort by a real key puts first the earliest element of least key, every element before it having a strictly greater key |
| CoordinateBonus.BonusKeepsBase | nve_data/resolve_vassdrag2.py:721-722 | after the bonus, every score is its base score plus its coordinate bonus |
| CoordinateBonus.ApplyCoordinateBonus | nve_data/resolve_vassdrag2.py:693-729 | the array after `_apply_coordinate_bonus` is the specification's bonused results |
| Resolver.RemoveWordFrom | nve_data/resolve_vassdrag2.py:143-144 | removing a whole word adds nothing and changes nothing where the word does not occur |
| Resolver.CollapseFrom | nve_data/resolve_vassdrag2.py:145 | collapsing whitespace runs leaves no two whitespace characters in a row and keeps every other character in order |
| Resolver.PreprocessSingleSpaced | nve_data/resolve_vassdrag2.py:143-146 | the cleaned text is stripped and single-spaced |
| Resolver.PreprocessOfClean | nve_data/resolve_vassdrag2.py:143-146 | a stripped, single-spaced text without the two words is kept as it is |
| Resolver.KeepScoring | nve_data/resolve_vassdrag2.py:182 | the kept results are exactly those scoring at least 30 |
| Resolver.ResultBeforeStrict | nve_data/resolve_vassdrag2.py:185 | the sort order (higher score first, then smaller number) is a strict order |
| Resolver.SortedByKey | nve_data/resolve_vassdrag2.py:185 | the sorted results go by falling score, and by number among equal scores |
| Resolver.ResolveSpec | nve_data/resolve_vassdrag2.py:143-186 | nothing for a text that cleans to nothing; otherwise a sorted permutation of the kept results of all the names |
| Resolver.ResolveKeeps | nve_data/resolve_vassdrag2.py:172-186 | a result is returned exactly when some name produced it and it scores at least 30 |
| Resolver.ScoreNames | nve_data/resolve_vassdrag2.py:172-177 | the loop collects the results of every name in order |
| Resolver.Resolve | nve_data/resolve_vassdrag2.py:126-186 | `resolve_vassdrag` returns the specification's results for the collected suffix list, nothing for an empty text, each scoring at least 30 |
| LegacyNames.LongestEnding | nve_data/resolve_vassdrag.py:61-75 | the ending the longest-first loop stops at: a key the lowered word ends with while being longer, and no matching key is longer |
| LegacyNames.FirstMatchIsLongest | nve_data/resolve_vassdrag.py:69-75 | with the keys sorted longest first, the first matching key is the longest matching one |
| LegacyNames.FirstMatchReplaces | nve_data/resolve_vassdrag.py:70-74 | a word with a matching ending keeps its stem and gets the ending's category |
| LegacyNames.NoMatchKeeps | nve_data/resolve_vassdrag.py:64-77 | a word without a matching ending is kept |
| LegacyNames.NormalizeWordWith | nve_data/resolve_vassdrag.py:64-77 | the inner loop computes the normalised word of the specification |
| LegacyNames.NormalizeVassdragNavn | nve_data/resolve_vassdrag.py:51-79 | `normalize_vassdrag_navn` returns the specification's text |
| LegacyNames.NormalizeVassdragNavnSpec | nve_data/resolve_vassdrag.py:56-79 | empty exactly for a blank text; with categories free of blanks, its words are the normalised words of the text, one for one |
| LegacyNames.NormalizedWordIsWord | nve_data/resolve_vassdrag.py:64-77 | a normalised word is non-empty and holds no whitespace |
| LegacyNames.FoldDoubledConsonants | nve_data/resolve_vassdrag.py:148-160 | the while loop folds each doubled consonant to one and copies every other character |
| LegacyNames.FoldPairsSpec | nve_data/resolve_vassdrag.py:148-160 | folding keeps every non-consonant in order, adds no character and keeps the first character |
| LegacyNames.FoldPairsNoConsonants | nve_data/resolve_vassdrag.py:148-160 | a text without consonants is kept |
| LegacyNames.PhoneticNormalize | nve_data/resolve_vassdrag.py:103-162 | `phonetic_normalize` returns the specification's text |
| LegacyNames.PhoneticNormalizeSpec | nve_data/resolve_vassdrag.py:122-162 | empty for an empty text; never a blank or hyphen; never a leading 'c' |
| LegacyNames.VassdragsnrBonus | nve_data/resolve_vassdrag.py:514-546 | 10 for numbers of at most 3 characters, then 2 points less per character, 0 from 8 characters |
| LegacyNames.VassdragsnrBonusMonotone | nve_data/resolve_vassdrag.py:514-546 | a shorter number never gets a smaller bonus, and the bonus lies between 0 and 10 |
| LegacyLookup.FirstMatch | nve_data/resolve_vassdrag.py:91-98 | the index of the first entry whose field equals the search, ignoring case |
| LegacyLookup.ExactMatchNone | nve_data/resolve_vassdrag.py:82-100 | no match exactly when no entry has the search as its name or normalised name |
| LegacyLookup.ExactMatchPrefersNavn | nve_data/resolve_vassdrag.py:90-93 | the first entry matching on `navn` wins |
| LegacyLookup.ExactMatchFallsBack | nve_data/resolve_vassdrag.py:95-98 | when no name matches, the first entry matching on `navn_normalisert` is returned |
| LegacyLookup.FindExactMatch | nve_data/resolve_vassdrag.py:82-100 | `find_exact_match` returns the specification's entry |
| LegacyLookup.CollectFuzzyComplete | nve_data/resolve_vassdrag.py:216-230 | every non-empty field within the allowed phonetic distance gives a match |
| LegacyLookup.FirstPerVassdrag | nve_data/resolve_vassdrag.py:236-241 | keeping the first match per number keeps a sub-list of the matches, one per number, covering every number |
| LegacyLookup.FirstPerVassdragNearest | nve_data/resolve_vassdrag.py:232-241 | after the sort, the match kept for a number is at least as close as any match for it |
| LegacyLookup.FuzzyMatchesSpec | nve_data/resolve_vassdrag.py:190-243 | nothing for a search shorter than the minimum; every match is a real fuzzy hit; the result is sorted by distance |
| LegacyLookup.FuzzyMatchesComplete | nve_data/resolve_vassdrag.py:190-243 | every entry with a field within the distance is represented by a match for its number at least as close |
| LegacyLookup.FindFuzzyMatches | nve_data/resolve_vassdrag.py:190-243 | `find_fuzzy_matches` returns the specification's matches |
| LegacyLookup.StartswithMatchesSpec | nve_data/resolve_vassdrag.py:246-288 | nothing for a short search; every match's field is long enough and one of the two starts with the other; exactly one match per hit number and field |
| LegacyLookup.FindStartswithMatches | nve_data/resolve_vassdrag.py:246-288 | `find_startswith_matches` returns the specification's matches |
| LegacyVariants.FirstEnding | nve_data/resolve_vassdrag.py:404-409 | the first listed suffix the text ends with, absent exactly when there is none |
| LegacyVariants.StemVariantsScores | nve_data/resolve_vassdrag.py:415-472 | every stem variant scores between 35 and 88 |
| LegacyVariants.FossVariantsScores | nve_data/resolve_vassdrag.py:474-509 | every foss and fall variant scores between 25 and 35 |
| LegacyVariants.AddedEndingsScores | nve_data/resolve_vassdrag.py:351-358 | the added-ending variants score between 97 and 99 |
| LegacyVariants.AddedEndingsOnlyForBareNames | nve_data/resolve_vassdrag.py:344-351 | a name of at most three characters, or one that already ends in a watercourse suffix, gets no added endings |
| LegacyVariants.NormalizedVariantsScores | nve_data/resolve_vassdrag.py:360-374 | the normalised variants score 85 or 90 |
| LegacyVariants.DirectionalVariantsScores | nve_data/resolve_vassdrag.py:376-391 | the variants without a direction word score 86 or 87 |
| LegacyVariants.HyphenVariantsClean | nve_data/resolve_vassdrag.py:393-396 | the variant without hyphens holds no hyphen |
| LegacyVariants.VariantsSpec | nve_data/resolve_vassdrag.py:291-511 | the original name comes first with score 100, and every other variant scores between 25 and 99 |
| LegacyVariants.GenerateVariants | nve_data/resolve_vassdrag.py:291-511 | `generate_variants` returns the specification's variant list, in order |
| LegacyResolver.ImportantOf | nve_data/resolve_vassdrag.py:705-709 | the important variants are variants of the list whose type is one of no_directional, no_directional_normalized, normalized, stem_normalized |
| LegacyResolver.Top | nve_data/resolve_vassdrag.py:772 | the top-N slice is a prefix of the list of length min(N, length) |
| LegacyResolver.VnrsMembers | nve_data/resolve_vassdrag.py:587 | the seen set holds exactly the watercourse numbers of the collected matches |
| LegacyResolver.AddSpec | nve_data/resolve_vassdrag.py:591-607 | adding a candidate keeps the numbers distinct, keeps earlier matches in front and adds nothing but the candidate |
| LegacyResolver.AddUnseenSpec | nve_data/resolve_vassdrag.py:589-607 | adding a run of candidates keeps numbers distinct, extends the list and adds only candidates |
| LegacyResolver.ExactCandidatesTagged | nve_data/resolve_vassdrag.py:589-606 | every exact candidate comes from an index entry and reports the original input |
| LegacyResolver.StartswithCandidatesTagged | nve_data/resolve_vassdrag.py:614-640 | every startswith candidate comes from an index entry and reports the original input |
| LegacyResolver.FuzzyCandidatesTagged | nve_data/resolve_vassdrag.py:649-699 | every fuzzy candidate comes from an index entry and reports the original input |
| LegacyResolver.ImportantCandidatesTagged | nve_data/resolve_vassdrag.py:717-767 | every fuzzy candidate of an important variant comes from an index entry and reports the original input |
| LegacyResolver.AddUnseenGood | nve_data/resolve_vassdrag.py:589-607 | adding good candidates to good matches gives good matches that extend the old list |
| LegacyResolver.FuzzyEntriesInIndex | nve_data/resolve_vassdrag.py:647 | every fuzzy hit is an entry of the index |
| LegacyResolver.ImportantPhaseGood | nve_data/resolve_vassdrag.py:704-768 | the important-variant phase keeps matches good and only extends the list |
| LegacyResolver.CollectedGood | nve_data/resolve_vassdrag.py:586-768 | the four phases give good matches, with the exact-phase matches kept in front |
| LegacyResolver.ResolveSingleSpec | nve_data/resolve_vassdrag.py:549-772 | the single-name result has distinct watercourse numbers, is sorted by descending score, has at most max_results rows and reports entries of the index |
| LegacyResolver.SortedTop | nve_data/resolve_vassdrag.py:770-772 | sorting by descending score and taking the top N keeps matches good, sorted and at most N long |
| LegacyResolver.ExactCandidatesHead | nve_data/resolve_vassdrag.py:589-590 | when the first variant has an exact hit, it is the first exact candidate |
| LegacyResolver.AddUnseenHead | nve_data/resolve_vassdrag.py:591-607 | the first candidate added to an empty list is kept first |
| LegacyResolver.OriginalFirst | nve_data/resolve_vassdrag.py:583-607 | a name that itself exactly matches an index entry gives the original variant with score 100 plus the number bonus as the first collected match |
| LegacyResolver.CollectedHead | nve_data/resolve_vassdrag.py:586-607 | when the first variant has an exact hit, it is the first collected match |
| LegacyResolver.FuzzyPrefixBonusSpec | nve_data/resolve_vassdrag.py:656-682 | the fuzzy prefix bonus is one of -15, 0, 8, 12, 25; positive only when the first letters agree, 12 only when the first two agree, negative only for a non-zero distance with different first letters |
| LegacyResolver.OgMatchAt | nve_data/resolve_vassdrag.py:857 | a whitespace-og-whitespace match starting at i ends inside the text, after i |
| LegacyResolver.FirstOgMatch | nve_data/resolve_vassdrag.py:857 | the first separator found from i is a genuine match inside the text |
| LegacyResolver.OgSplit | nve_data/resolve_vassdrag.py:857 | a regular-expression split gives at least one part |
| LegacyResolver.FirstOgMatchFinds | nve_data/resolve_vassdrag.py:857 | a separator match at k is found by the search from any i up to k |
| LegacyResolver.OgSplitsInTwo | nve_data/resolve_vassdrag.py:856-857 | a name holding a whitespace-og-whitespace run splits into at least two parts |
| LegacyResolver.CleanPartsKept | nve_data/resolve_vassdrag.py:862-874 | every cleaned part is stripped, non-empty, at least 3 long and not one of the skipped suffix words |
| LegacyResolver.CleanPartsComplete | nve_data/resolve_vassdrag.py:862-874 | every part that passes the filters after stripping is kept |
| LegacyResolver.Relabel | nve_data/resolve_vassdrag.py:893-897 | relabelling sets the original input to the full name and the part, and changes nothing else |
| LegacyResolver.RelabelTagged | nve_data/resolve_vassdrag.py:893-896 | every relabelled match names the full input and its part |
| LegacyResolver.CompositeMatchesTagged | nve_data/resolve_vassdrag.py:884-897 | every composite match names the full input and a non-empty stripped part |
| LegacyResolver.CompositeSpec | nve_data/resolve_vassdrag.py:844-901 | a composite result is a permutation of the per-part matches, sorted by descending score, each tagged with the full input and its part |
| LegacyResolver.SortedComposite | nve_data/resolve_vassdrag.py:899-901 | sorting the composite matches keeps them as a permutation, sorted and tagged |
| LegacyResolver.PlainNameIsSingle | nve_data/resolve_vassdrag.py:837-841 | a name with neither a hyphen nor " og " is resolved as a single name |
| LegacyResolver.OgNameIsComposite | nve_data/resolve_vassdrag.py:838-901 | a name with a whitespace-og-whitespace run is resolved part by part |
| LegacyResolver.AddUnseenSnoc | nve_data/resolve_vassdrag.py:589-607 | adding one more candidate at the end is one more add step |
| LegacyResolver.Push | nve_data/resolve_vassdrag.py:591-607 | the append-and-mark step gives the added list and its seen set |
| LegacyResolver.ExactCandidatesSnoc | nve_data/resolve_vassdrag.py:589-590 | the exact candidates of one more variant are the old ones plus its hit |
| LegacyResolver.ExactPhase | nve_data/resolve_vassdrag.py:586-607 | the exact-match loop adds the unseen exact candidates and keeps the seen set equal to the collected numbers |
| LegacyResolver.StartswithCandidatesSnoc | nve_data/resolve_vassdrag.py:614-640 | the startswith candidates of one more hit are the old ones plus its row |
| LegacyResolver.StartswithRow | nve_data/resolve_vassdrag.py:617-640 | a startswith row scores 96 for navn and 94 otherwise, plus the number bonus and 25 |
| LegacyResolver.StartswithPhase | nve_data/resolve_vassdrag.py:611-641 | the startswith loop adds the unseen startswith candidates and keeps the seen set |
| LegacyResolver.PrefixBonus | nve_data/resolve_vassdrag.py:656-682 | the imperative prefix-bonus branches compute the fuzzy prefix bonus |
| LegacyResolver.FuzzyRow | nve_data/resolve_vassdrag.py:652-699 | a fuzzy row scores 95 minus three per edit plus the number bonus and the prefix bonus |
| LegacyResolver.FuzzyCandidatesSnoc | nve_data/resolve_vassdrag.py:649-699 | the fuzzy candidates of one more hit are the old ones plus its row |
| LegacyResolver.FuzzyPhase | nve_data/resolve_vassdrag.py:645-700 | the fuzzy loop adds the unseen fuzzy candidates and keeps the seen set |
| LegacyResolver.ImportantRow | nve_data/resolve_vassdrag.py:719-767 | an important-variant row scores max(base - 3 per edit, 50) plus the number bonus and the prefix bonus against the variant |
| LegacyResolver.ImportantCandidatesSnoc | nve_data/resolve_vassdrag.py:717-767 | the candidates of one more hit are the old ones plus its row |
| LegacyResolver.ImportantFuzzyPhase | nve_data/resolve_vassdrag.py:715-768 | the inner loop for one important variant adds its unseen candidates and keeps the seen set |
| LegacyResolver.ImportantPhaseStops | nve_data/resolve_vassdrag.py:711-713 | once max_results matches are collected, the remaining important variants add nothing |
| LegacyResolver.ImportantLoop | nve_data/resolve_vassdrag.py:704-768 | the outer loop over important variants, with its early break, computes the important phase |
| LegacyResolver.CollectMatches | nve_data/resolve_vassdrag.py:586-768 | the four phases, each run only while fewer than max_results matches exist, compute the collected matches |
| LegacyResolver.ResolveVassdragSingle | nve_data/resolve_vassdrag.py:549-772 | the single-name lookup returns the sorted top-N of the collected matches |
| LegacyResolver.CleanParts | nve_data/resolve_vassdrag.py:862-874 | the cleaning loop keeps the stripped parts that pass the filters, in order |
| LegacyResolver.AppendRelabelled | nve_data/resolve_vassdrag.py:893-897 | the inner loop appends the part's matches relabelled |
| LegacyResolver.CompositeParts | nve_data/resolve_vassdrag.py:855-877 | the parts are the og split, else the cleaned hyphen parts when there are two or more, else none |
| LegacyResolver.CompositeMatchesSnoc | nve_data/resolve_vassdrag.py:885-897 | the matches of one more part are the old ones plus that part's relabelled rows |
| LegacyResolver.ResolvePart | nve_data/resolve_vassdrag.py:886-897 | one part adds nothing when empty after stripping and its relabelled single-name rows otherwise |
| LegacyResolver.ResolveParts | nve_data/resolve_vassdrag.py:884-897 | the loop over parts computes the composite matches |
| LegacyResolver.ResolveCompositeVassdrag | nve_data/resolve_vassdrag.py:844-901 | the composite lookup falls back to a single lookup with fewer than two parts, else returns the sorted composite matches |
| LegacyResolver.ResolveVassdrag | nve_data/resolve_vassdrag.py:775-841 | the entry point dispatches on " og " or a hyphen |
| RegineIndexBuilder.ParenGroupAt | nve_data/build_regine_index.py:25 | a parenthesised group with its leading whitespace, when found at i, ends after i inside the text |
| RegineIndexBuilder.RemoveParensChars | nve_data/build_regine_index.py:25-32 | removing the groups leaves only characters of the original text |
| RegineIndexBuilder.OpenWithoutClose | nve_data/build_regine_index.py:25 | an opening parenthesis that starts no group has no closing one after it |
| RegineIndexBuilder.RemoveParensFromFree | nve_data/build_regine_index.py:25-32 | after removal no opening parenthesis is followed by a closing one |
| RegineIndexBuilder.RemoveParensFromPlain | nve_data/build_regine_index.py:25-32 | a text without an opening parenthesis is kept unchanged |
| RegineIndexBuilder.SeparatorAt | nve_data/build_regine_index.py:26 | a separator is '/', ',' or a whole-word "og" inside the text, and a non-match is neither '/' nor ',' |
| RegineIndexBuilder.SplitFrom | nve_data/build_regine_index.py:26-35 | the regular-expression split gives at least one piece |
| RegineIndexBuilder.SplitFromPieces | nve_data/build_regine_index.py:26-35 | every split piece is a slice of the text holding neither '/' nor ',' |
| RegineIndexBuilder.SplitFromPlain | nve_data/build_regine_index.py:26-35 | a text without separators splits into itself |
| RegineIndexBuilder.StrippedPiecesFrom | nve_data/build_regine_index.py:35 | pieces of a separator-free and group-free text stay so after stripping, and are non-empty and stripped |
| RegineIndexBuilder.NormaliseNamesSpec | nve_data/build_regine_index.py:30-35 | every name is non-empty, stripped, free of '/', ',' and parenthesised groups |
| RegineIndexBuilder.PlainNameKept | nve_data/build_regine_index.py:30-35 | a non-blank value without parentheses or separators gives exactly its stripped self |
| RegineIndexBuilder.NamesOfFieldsMembers | nve_data/build_regine_index.py:41-49 | the names gathered are exactly the names of the string-valued fields in the list |
| RegineIndexBuilder.ExtractNamesSpec | nve_data/build_regine_index.py:38-50 | the extracted names are distinct, are exactly the names of the four name fields and lokalnavn where those are strings, and start with the first name found |
| RegineIndexBuilder.SetDefaultAll | nve_data/build_regine_index.py:44-45 | the setdefault loop appends the unseen names in first-occurrence order |
| RegineIndexBuilder.ExtractNames | nve_data/build_regine_index.py:38-50 | the loops over the fields compute the extracted names |
| RegineIndexBuilder.ReplaceWithCategorySpec | nve_data/build_regine_index.py:76-88 | the rewrite equals the older resolver's normalisation per word, and keeps the number and the stems of the words |
| RegineIndexBuilder.ReplaceWithCategory | nve_data/build_regine_index.py:76-88 | the per-word longest-first loop computes the rewrite |
| RegineIndexBuilder.BuildIndexSound | nve_data/build_regine_index.py:92-109 | every index row comes from a record with a number and both centre coordinates, for one of its names, with that record's number and coordinates and the rewritten name |
| RegineIndexBuilder.BuildIndexComplete | nve_data/build_regine_index.py:92-109 | every name of every indexed record has its row |
| RegineIndexBuilder.RowsStep | nve_data/build_regine_index.py:99-108 | one more name adds its one row |
| RegineIndexBuilder.IndexRowFor | nve_data/build_regine_index.py:100-107 | the row built for a name is the record's row for it |
| RegineIndexBuilder.AppendRows | nve_data/build_regine_index.py:99-108 | the inner loop appends the record's rows in name order |
| RegineIndexBuilder.BuildIndex | nve_data/build_regine_index.py:92-109 | the outer loop skips records without a number or a coordinate and computes the index |
| NameMapping.AnyIff | nve_data/map_names.py:34-48 | the any-flag holds exactly when some element satisfies the test |
| NameMapping.AnyMappedIff | nve_data/map_names.py:34-48 | mapped_any holds exactly when some word has a matching ending |
| NameMapping.MapNameNone | nve_data/map_names.py:28-53 | the result is None exactly when the stripped text is blank or no word has a matching ending |
| NameMapping.MapNameSome | nve_data/map_names.py:32-53 | a result is non-empty and is the per-word normalisation of the text |
| NameMapping.MapNameNoneKeeps | nve_data/map_names.py:37-50 | when no word has a matching ending every word is kept |
| NameMapping.MapWord | nve_data/map_names.py:38-48 | the ending loop gives the normalised word, and replaced is set exactly when an ending matches |
| NameMapping.MapWords | nve_data/map_names.py:37-50 | the word loop gives the normalised words and the flag of any replacement |
| NameMapping.MapName | nve_data/map_names.py:22-53 | the imperative mapping computes the specified result |
| NameMapping.MapNameTruthy | nve_data/map_names.py:77-78 | a mapping result is truthy exactly when it is not None |
| NameMapping.PartitionWithCount | nve_data/map_names.py:73-81 | the non-blank stripped lines are exactly the names in mapped together with those in not_mapped, counting repeats |
| NameMapping.PartitionWithMembers | nve_data/map_names.py:73-81 | mapped pairs hold a name and its truthy result; not_mapped names have a falsy result |
| NameMapping.PartitionWithStep | nve_data/map_names.py:74-81 | one more non-blank line adds its name to one of the lists |
| NameMapping.PartitionWithSkip | nve_data/map_names.py:75-76 | a blank line adds nothing |
| NameMapping.PartitionSpec | nve_data/map_names.py:69-81 | the lines are split into mapped pairs, whose second half is the mapping of the first, and unmapped names, and together they hold every non-blank line |
| NameMapping.PartitionNames | nve_data/map_names.py:69-81 | the reading loop computes the partition |
| NameMapping.SortMappedSpec | nve_data/map_names.py:84 | the mapped pairs are permuted and ordered by reversed mapped name |
| NameMapping.SortNotMappedSpec | nve_data/map_names.py:85 | the unmapped names are permuted and ordered by reversed name |
| NameMapping.MapNames | nve_data/map_names.py:56-94 | the main routine produces the two sorted lists written out |
| CommonEndings.SuffixesLengths | nve_data/find_common_endings.py:18-21 | the suffixes have lengths min_len, min_len+1, ... in turn and are distinct |
| CommonEndings.SuffixAt | nve_data/find_common_endings.py:18-21 | each suffix is an ending of the word within the length bounds |
| CommonEndings.SuffixFound | nve_data/find_common_endings.py:18-21 | every ending of the word within the length bounds is listed |
| CommonEndings.SuffixesMembers | nve_data/find_common_endings.py:18-21 | the suffixes are exactly the endings of the word within the length bounds |
| CommonEndings.IncValid | nve_data/find_common_endings.py:38 | counter[suf] += 1 keeps the counter well formed and raises that count by one |
| CommonEndings.BumpAllValid | nve_data/find_common_endings.py:37-38 | counting a word's suffixes keeps the counter well formed |
| CommonEndings.CounterOf | nve_data/find_common_endings.py:35-38 | the counter built from the names is well formed |
| CommonEndings.BumpAllCount | nve_data/find_common_endings.py:37-38 | counting a word's suffixes raises exactly those counts by one |
| CommonEndings.CounterOfCount | nve_data/find_common_endings.py:35-38 | each suffix is counted once per name that ends with it within the bounds |
| CommonEndings.CounterStep | nve_data/find_common_endings.py:36-38 | one more name bumps its suffixes |
| CommonEndings.BumpStep | nve_data/find_common_endings.py:37-38 | one more suffix is one more increment |
| CommonEndings.BumpSuffixes | nve_data/find_common_endings.py:37-38 | the inner loop counts the word's suffixes |
| CommonEndings.CountSuffixes | nve_data/find_common_endings.py:35-38 | the outer loop builds the counter |
| CommonEndings.Items | nve_data/find_common_endings.py:41 | the items are the keys in insertion order with their values |
| CommonEndings.ItemsSpec | nve_data/find_common_endings.py:41 | the items have distinct keys and are exactly the counter's pairs |
| CommonEndings.FrequentSpec | nve_data/find_common_endings.py:41 | the frequent items are exactly the items with a count of at least 3 |
| CommonEndings.SortLongerFirstSpec | nve_data/find_common_endings.py:45 | sorting permutes the items and puts longer suffixes first |
| CommonEndings.KeepLongestOf | nve_data/find_common_endings.py:44-47 | the filtered dictionary is well formed |
| CommonEndings.LastIsShortest | nve_data/find_common_endings.py:45 | in the longer-first order no earlier suffix is shorter than the last one or equal to it |
| CommonEndings.KeepLongestStep | nve_data/find_common_endings.py:45-47 | one more suffix keeps the filtered dictionary equal to the undominated items seen so far |
| CommonEndings.KeepLongestSpec | nve_data/find_common_endings.py:44-47 | a suffix is kept exactly when no other suffix in the list ends with it, with its count |
| CommonEndings.KeepLongest | nve_data/find_common_endings.py:44-47 | the filtering loop computes the filtered dictionary |
| CommonEndings.FindCommonEndings | nve_data/find_common_endings.py:24-55 | the main routine computes the backsorted common endings |
| CommonEndings.FrequentItems | nve_data/find_common_endings.py:35-41 | the frequent items are exactly the suffixes at least 3 names end with, with that number |
| CommonEndings.OrderedItems | nve_data/find_common_endings.py:45 | the sorted items have distinct keys, the same elements and longer suffixes first |
| CommonEndings.KeptItems | nve_data/find_common_endings.py:44-47 | the kept items are exactly the undominated ones, with distinct keys |
| CommonEndings.DominatedByFrequent | nve_data/find_common_endings.py:41-47 | a suffix is dominated exactly when another frequent suffix ends with it |
| CommonEndings.CommonEndingsSpec | nve_data/find_common_endings.py:24-50 | the output is exactly the frequent suffixes no other frequent suffix ends with, with their counts, distinct and ordered by reversed suffix |
| CommonEndings.BackSortSpec | nve_data/find_common_endings.py:50 | the back sort permutes the items and orders them by reversed suffix |
| EndingGroups.DigitsOfNat | nve_data/find_common_endings2.py:29 | the decimal text of a natural number reads back as that number |
| EndingGroups.ParseIntOfString | nve_data/find_common_endings2.py:29 | int() reads back the decimal text of any integer, negative ones included |
| EndingGroups.ParseNegative | nve_data/find_common_endings2.py:29 | int() reads a minus sign followed by the digits of m as -m |
| EndingGroups.DigitText | nve_data/find_common_endings2.py:29 | a run of digits is digit text without a sign |
| EndingGroups.SplitCommaSpec | nve_data/find_common_endings2.py:27 | splitting at the first comma fails exactly when there is no comma, and otherwise gives a comma-free head and the rest around that comma |
| EndingGroups.ParseLineSkips | nve_data/find_common_endings2.py:23-33 | a blank line and a line without a comma give no row |
| EndingGroups.ParseLineKept | nve_data/find_common_endings2.py:26-31 | a line that gives a row has a comma, and its ending is non-empty, comma-free, without an outer typographic apostrophe, and made of the line's characters |
| EndingGroups.StripLineBreak | nve_data/find_common_endings2.py:23 | stripping removes the trailing line break from a stripped text |
| EndingGroups.FirstComma | nve_data/find_common_endings2.py:27 | a comma-free ending followed by a comma splits at that comma |
| EndingGroups.IntToStringEnds | nve_data/find_common_endings2.py:29 | the decimal text of an integer is non-empty and stripped |
| EndingGroups.ParseWrittenLine | nve_data/find_common_endings.py:54-55 | a line written by the counting script, ending,count, reads back as that row when the ending is stripped, comma-free and free of outer quotes |
| EndingGroups.SomesMapStep | nve_data/find_common_endings2.py:22-31 | one more line adds its row when it parses |
| EndingGroups.SomesMapMembers | nve_data/find_common_endings2.py:22-31 | the rows are exactly the parse results of the lines that parse |
| EndingGroups.KeepParsed | nve_data/find_common_endings2.py:20-34 | the reading loop keeps the rows of the lines that parse, in order |
| EndingGroups.ReadInput | nve_data/find_common_endings2.py:19-34 | read_input computes the rows of the lines |
| EndingGroups.ReadInputSpec | nve_data/find_common_endings2.py:19-34 | a row is read exactly when some line parses to it, and its ending is non-empty and comma-free |
| EndingGroups.AppendWellFormed | nve_data/find_common_endings2.py:44 | appending to a bucket keeps the map well formed |
| EndingGroups.AppendAllWellFormed | nve_data/find_common_endings2.py:42-44 | appending a row to all its suffix buckets keeps the map well formed |
| EndingGroups.AppendAllBucket | nve_data/find_common_endings2.py:42-44 | exactly the buckets of the row's suffixes get the row at the end |
| EndingGroups.SuffixMapOf | nve_data/find_common_endings2.py:39-44 | the suffix map is well formed |
| EndingGroups.MembersSpec | nve_data/find_common_endings2.py:40-44 | a suffix's members are exactly the rows whose lowered ending ends with it within the length bounds |
| EndingGroups.SuffixMapBucket | nve_data/find_common_endings2.py:39-44 | the bucket of a suffix holds its members in order, and the key exists exactly when it has one |
| EndingGroups.AddSuffixes | nve_data/find_common_endings2.py:42-44 | the inner loop appends the row to the buckets of its suffixes |
| EndingGroups.BuildSuffixMap | nve_data/find_common_endings2.py:39-44 | the outer loop builds the suffix map |
| EndingGroups.CandidatesSpec | nve_data/find_common_endings2.py:47 | the candidates are exactly the items with at least two members, each once |
| EndingGroups.SortCandidatesSpec | nve_data/find_common_endings2.py:51 | sorting the candidates keeps them and puts longer suffixes first |
| EndingGroups.Summarize | nve_data/find_common_endings2.py:56 | summing the buckets keeps the dictionary well formed |
| EndingGroups.FindCommonSuffixesOf | nve_data/find_common_endings2.py:37-57 | the summary dictionary is well formed |
| EndingGroups.FindCommonSuffixes | nve_data/find_common_endings2.py:37-57 | the imperative routine computes the summary |
| EndingGroups.CandidateItems | nve_data/find_common_endings2.py:39-47 | the candidates are exactly the suffixes shared by at least two rows, with their member rows |
| EndingGroups.DominatedByCommon | nve_data/find_common_endings2.py:47-53 | a candidate is dominated exactly when another shared suffix ends with it |
| EndingGroups.FindCommonSuffixesSpec | nve_data/find_common_endings2.py:37-57 | a suffix is summarised exactly when it is shared and no other shared suffix ends with it, and its total is the sum of its members' counts |
| EndingGroups.KeptNotNested | nve_data/find_common_endings2.py:50-53 | no kept suffix ends with another kept suffix |
| EndingGroups.CommonBounds | nve_data/find_common_endings2.py:42-47 | a shared suffix is 3 to 10 long and each member row ends with it |
| EndingGroups.FindMember | nve_data/find_common_endings2.py:79-82 | the loop over the kept suffixes finds one exactly when the ending ends with some kept suffix |
| EndingGroups.GroupedSpec | nve_data/find_common_endings2.py:76-82 | the grouped endings are exactly the rows' endings that end with a kept suffix |
| EndingGroups.GroupEndings | nve_data/find_common_endings2.py:76-82 | the imperative loops compute the grouped set |
| EndingGroups.MergeOf | nve_data/find_common_endings2.py:83-85 | adding the standalone endings keeps the dictionary well formed |
| EndingGroups.MergeValue | nve_data/find_common_endings2.py:83-85 | after the merge a key is a summarised suffix or an ungrouped ending, and summarised values are kept unless an ungrouped row overwrites them |
| EndingGroups.MergeUngrouped | nve_data/find_common_endings2.py:83-85 | the imperative loop computes the merge |
| EndingGroups.SummarizeEndings | nve_data/find_common_endings2.py:60-88 | the main routine yields no output for empty input and the backsorted summary otherwise |
| EndingGroups.GroupedCovered | nve_data/find_common_endings2.py:76-82 | an ending is grouped exactly when it ends with a kept suffix |
| EndingGroups.LastRow | nve_data/find_common_endings2.py:83-85 | every ending has a last row, which the merge keeps |
| EndingGroups.MergedEntry | nve_data/find_common_endings2.py:73-85 | a merged pair is a kept suffix with its total, or an uncovered ending with the count of its last row |
| EndingGroups.SummarySpec | nve_data/find_common_endings2.py:60-88 | the output lists exactly the kept suffixes with their totals and the uncovered endings with their last counts, each once, ordered by reversed text |
| EntityMatching.SuffixesFor | steg3_identifiser_entiteter.py:256-264 | the suffix list is the eleven general suffixes, followed by the river suffixes for elv and the lake suffixes for innsjø, and nothing more otherwise |
| EntityMatching.CollapseSpaces | steg3_identifiser_entiteter.py:276 | collapsing whitespace runs leaves single spaces, adds nothing but spaces and keeps a leading non-blank character |
| EntityMatching.NormalizeName | steg3_identifiser_entiteter.py:246-279 | the imperative normalisation computes the normalised name |
| EntityMatching.RunPass | steg3_identifiser_entiteter.py:269-271 | the suffix loop computes one pass over the suffix list |
| EntityMatching.CutStripped | steg3_identifiser_entiteter.py:270-271 | cutting a suffix leaves a stripped prefix of the name |
| EntityMatching.PassPrefix | steg3_identifiser_entiteter.py:269-271 | a pass leaves a stripped prefix of a stripped name |
| EntityMatching.RepeatPrefix | steg3_identifiser_entiteter.py:268-271 | the repeated passes leave a stripped prefix of the name |
| EntityMatching.PassNoSuffix | steg3_identifiser_entiteter.py:269-271 | a name with none of the suffixes is kept by a pass |
| EntityMatching.SliceSingleSpaced | steg3_identifiser_entiteter.py:276 | a slice of a single-spaced text is single-spaced |
| EntityMatching.CollapseSingleSpaced | steg3_identifiser_entiteter.py:276 | collapsing keeps a single-spaced text unchanged |
| EntityMatching.NormalizedShape | steg3_identifiser_entiteter.py:246-279 | a non-string gives "", and every normalised name is stripped, hyphen-free and single-spaced |
| EntityMatching.NormalizedFixpoint | steg3_identifiser_entiteter.py:246-279 | a lower-case, stripped, single-spaced, hyphen-free name with none of the suffixes normalises to itself |
| EntityMatching.NormalizedPasses | steg3_identifiser_entiteter.py:253-271 | the suffix passes leave a stripped prefix of the lowered, stripped name |
| EntityMatching.LineEnd | steg3_identifiser_entiteter.py:391 | the line scan stops at the first line break or the end |
| EntityMatching.SplitLines | steg3_identifiser_entiteter.py:391 | splitlines gives lines without breaks, nothing for "", and the text itself for a text without breaks |
| EntityMatching.JoinNoBreak | steg3_identifiser_entiteter.py:391 | joining break-free lines with spaces gives a break-free text |
| EntityMatching.StripNoBreak | steg3_identifiser_entiteter.py:394 | stripping keeps a text break-free |
| EntityMatching.EscapeSpec | steg3_identifiser_entiteter.py:375-397 | None gives "", and otherwise the value's lines joined by spaces and stripped, with no line break |
| EntityMatching.EscapePlain | steg3_identifiser_entiteter.py:375-397 | a stripped, break-free text is returned unchanged |
| EntityMatching.EscapeIdempotent | steg3_identifiser_entiteter.py:375-397 | escaping an escaped value changes nothing |
| EntityMatching.QuoteEndsValueEarly | steg3_identifiser_entiteter.py:397 | as written, a value holding '"' passes the escape unchanged and the written attribute does not read back as the value |
| EntityMatching.ValueCutAtQuote | steg3_identifiser_entiteter.py:495 | the attribute scan reads such a value only up to its first '"' |
| EntityMatching.EscapeQuotedSpec | steg3_identifiser_entiteter.py:375-397 | the escape with '"' written as &quot; gives no '"' and no line break, and agrees with the escape as written on values without '"' |
| EntityMatching.QuoteReplaced | steg3_identifiser_entiteter.py:397 | replacing '"' by &quot; leaves no '"' and adds no line break |
| EntityMatching.KeyLen | steg3_identifiser_entiteter.py:495 | the key scan takes the longest run of word characters, '_', ':' and '-' |
| EntityMatching.QuoteEnd | steg3_identifiser_entiteter.py:495 | the value scan stops at the first '"' or newline |
| EntityMatching.AttrAt | steg3_identifiser_entiteter.py:495-498 | a match at the start has a non-empty key and a value without '"' or newline, within the text |
| EntityMatching.AttrAtRendered | steg3_identifiser_entiteter.py:495 | a written key="value" attribute is matched back at its start as that key and value |
| EntityMatching.AttrAtNone | steg3_identifiser_entiteter.py:495-496 | no match starts at a character that cannot start a key |
| EntityMatching.FindAttrsSpace | steg3_identifiser_entiteter.py:496 | the scan skips a separating space |
| EntityMatching.FindAttrsAt | steg3_identifiser_entiteter.py:496-498 | a match at the start is the first pair found, and the scan resumes after it |
| EntityMatching.AttrsRoundTrip | steg3_identifiser_entiteter.py:495-540 | attributes written space-separated as key="value" read back as the same pairs in order |
| EntityMatching.PartialBound | steg3_identifiser_entiteter.py:311-316 | a partial match is containment either way with a length difference of at most max(5, 30% of the input's length) |
| EntityMatching.ExactOf | steg3_identifiser_entiteter.py:297-307 | the exact candidates are exactly the items whose normalised name equals the input |
| EntityMatching.PartialOf | steg3_identifiser_entiteter.py:297-316 | the partial candidates are exactly the items that match partially but not exactly |
| EntityMatching.NearestSpec | steg3_identifiser_entiteter.py:334-358 | the distance loop finds nothing exactly when no candidate has a distance, and otherwise the strictly nearest candidate, the first one on ties |
| EntityMatching.FindBestMatch | steg3_identifiser_entiteter.py:282-373 | the imperative find_best_match computes the specified choice |
| EntityMatching.CollectCandidates | steg3_identifiser_entiteter.py:291-316 | the item loop gathers the exact and the partial candidates |
| EntityMatching.ClassifyItem | steg3_identifiser_entiteter.py:298-316 | one item is classed exact, partial or neither |
| EntityMatching.NearestLoop | steg3_identifiser_entiteter.py:334-358 | the imperative distance loop computes the nearest candidate |
| EntityMatching.BestMatchNone | steg3_identifiser_entiteter.py:319-325 | there is no match exactly when no item matches exactly or partially |
| EntityMatching.BestMatchKind | steg3_identifiser_entiteter.py:319-331 | the chosen item is an item of the register that matches exactly, or partially only when none matches exactly |
| EntityMatching.BestMatchPosition | steg3_identifiser_entiteter.py:329-371 | of several candidates, with a reference point and some distance the strictly nearest (first on ties) is chosen, else the first |
| EntityMatching.FindAttrsReadable | steg3_identifiser_entiteter.py:495-498 | every pair found has a key of key characters and a value without '"' or newline |
| EntityMatching.IsNavnLower | steg3_identifiser_entiteter.py:499 | the navn test is the lower-cased comparison with "navn" |
| EntityMatching.OutputPairsSpec | steg3_identifiser_entiteter.py:530-536 | the written pairs are exactly the non-navn items with their values escaped |
| EntityMatching.EnrichTag | steg3_identifiser_entiteter.py:487-542 | the imperative enrich step computes the tag the code writes, with its quote replacement as written |
| EntityMatching.ReadExisting | steg3_identifiser_entiteter.py:490-500 | the loop over the existing attributes computes the existing dictionary |
| EntityMatching.AddLookup | steg3_identifiser_entiteter.py:502-505 | the loop over the lookup attributes computes the override |
| EntityMatching.WriteParts | steg3_identifiser_entiteter.py:524-536 | the parts are navn first and then the other pairs in key order, every value passed through the quote replacement as written |
| EntityMatching.WritePairs | steg3_identifiser_entiteter.py:530-536 | the loop writes the non-navn pairs with escaped values |
| EntityMatching.ExistingSpec | steg3_identifiser_entiteter.py:490-500 | the existing keys are exactly the non-navn keys found, each with its last value |
| EntityMatching.OverrideSpec | steg3_identifiser_entiteter.py:502-505 | a key is kept or set by a non-None lookup value, which then wins |
| EntityMatching.FinalAttrsSpec | steg3_identifiser_entiteter.py:487-505 | apart from match_found, an attribute is held exactly when the lookup has a non-None value for it (which wins) or it occurs in the existing text under a name other than navn (with its last value) |
| EntityMatching.MatchFoundTrue | steg3_identifiser_entiteter.py:508-509 | match_found is "true" whenever the lookup produced attributes |
| EntityMatching.MatchFoundFalse | steg3_identifiser_entiteter.py:510-516 | without lookup attributes and with only navn and match_found existing, match_found is "false" |
| EntityMatching.MatchFoundKept | steg3_identifiser_entiteter.py:510-516 | without lookup attributes but with another existing attribute, the existing attributes are written unchanged |
| EntityMatching.TagPairsSpec | steg3_identifiser_entiteter.py:530-536 | whatever the escape, the written pairs have strictly increasing keys and are exactly the non-navn entries with their values so escaped |
| EntityMatching.OutputOrdered | steg3_identifiser_entiteter.py:530 | pairs taken in sorted key order keep strictly increasing keys |
| EntityMatching.FinalKeys | steg3_identifiser_entiteter.py:495-509 | every final key is made of key characters |
| EntityMatching.TagShape | steg3_identifiser_entiteter.py:528-540 | the tag starts with "<", the tag type and the navn attribute, and ends with ">" |
| EntityMatching.TagReadBack | steg3_identifiser_entiteter.py:495-540 | as written, when no written value holds '"', the attributes of the written tag read back as the written parts |
| EntityMatching.FixedTagReadBack | steg3_identifiser_entiteter.py:495-540 | with '"' written as &quot;, the attributes of every written tag read back as the written parts |
| EntityMatching.TagPartsAgree | steg3_identifiser_entiteter.py:525-536 | when no written value holds '"', the parts as written equal the parts with the corrected escape |
| EntityMatching.PartsReadable | steg3_identifiser_entiteter.py:525-536 | as written, when no written value holds '"', the written parts have key-character keys and values without '"' or newline |
| EntityMatching.FixedPartsReadable | steg3_identifiser_entiteter.py:525-536 | with '"' written as &quot;, the written parts always have key-character keys and values without '"' or newline |
| NsdRendering.BareLen | steg4_nsd_til_html.py:88 | the bare-value scan takes the longest run of characters that are neither blank nor '>' |
| NsdRendering.ValueAt | steg4_nsd_til_html.py:88 | a value read at the start of a text, double-quoted, single-quoted or bare, is non-empty text within it |
| NsdRendering.AttributeAt | steg4_nsd_til_html.py:88 | an attribute match at the start has a key of key characters and lies within the text |
| NsdRendering.ParseAttributes | steg4_nsd_til_html.py:85-93 | the imperative loop builds the dictionary of the scanned pairs |
| NsdRendering.AttrMapSpec | steg4_nsd_til_html.py:89-92 | a key is in the dictionary exactly when some pair has it, and it holds the last such pair's value |
| NsdRendering.KeyThenValue | steg4_nsd_til_html.py:88 | key= followed by a value text matches exactly when a value is read there |
| NsdRendering.QuotedValue | steg4_nsd_til_html.py:88 | a value between matching quotes without that quote is read whole |
| NsdRendering.DoubleQuotedValue | steg4_nsd_til_html.py:88-91 | key="v" is read as key and v |
| NsdRendering.SingleQuotedValue | steg4_nsd_til_html.py:88-91 | key='v' is read as key and v |
| NsdRendering.BareValueAt | steg4_nsd_til_html.py:88 | a bare run followed by a blank or '>' is read as the value |
| NsdRendering.ScanAttributesAt | steg4_nsd_til_html.py:89-92 | a match at the start is the first pair, and the scan resumes after it |
| NsdRendering.ScanAttributesSpace | steg4_nsd_til_html.py:89 | the scan skips a separating space |
| NsdRendering.QuotableTail | steg4_nsd_til_html.py:88 | the pairs after the first are still quotable |
| NsdRendering.ScanRenderedOne | steg4_nsd_til_html.py:88-92 | an attribute written as key="value" is read as that pair |
| NsdRendering.ScanRendered | steg4_nsd_til_html.py:85-93 | the attributes step 3 writes read back as the same pairs in order |
| NsdRendering.SplitFirst | steg4_nsd_til_html.py:114 | split with maxsplit=1 gives at most two parts |
| NsdRendering.TagRuleWith | steg4_nsd_til_html.py:98-128 | a matched tag ends after its opening and closing brackets, within the source |
| NsdRendering.ScanTag | steg4_nsd_til_html.py:98-128 | the imperative rule computes the rule's reading |
| NsdRendering.InlineState.NsdTagRule | steg4_nsd_til_html.py:98-128 | the rule succeeds exactly when the reading exists; on failure the position and tokens are unchanged, on success the position moves past the "]]" and a token is pushed unless silent |
| NsdRendering.InlineState.RuleWith | steg4_nsd_til_html.py:98-128 | the same, for any splitting of the content |
| NsdRendering.InlineState.PushToken | steg4_nsd_til_html.py:121-125 | pushing adds the tag's token and keeps the position |
| NsdRendering.SplitFirstEmpty | steg4_nsd_til_html.py:114-116 | there are no parts exactly when the content is blank |
| NsdRendering.SplitFirstWord | steg4_nsd_til_html.py:114-117 | the first part is the first word |
| NsdRendering.SplitFirstWordOnly | steg4_nsd_til_html.py:114-118 | a single word gives one part and an empty attribute text |
| NsdRendering.SplitFirstWordRest | steg4_nsd_til_html.py:114-118 | a word, a space and stripped attribute text give the word and that text |
| NsdRendering.SplitFirstOf | steg4_nsd_til_html.py:114-118 | a word and its attribute text split back into the word and the text |
| NsdRendering.TagRuleWithSpec | steg4_nsd_til_html.py:100-118 | for any splitting, the rule matches exactly when "[[" is at pos, a "]]" follows and the content before the first one has a part; the type is its first part and the attributes its second |
| NsdRendering.TagRuleSpec | steg4_nsd_til_html.py:100-118 | the rule matches exactly when "[[" is at pos, a "]]" follows and the content before the first one is not blank; the tag type is its first word |
| NsdRendering.CloseAfter | steg4_nsd_til_html.py:107 | the first "]]" after bracketed content without ']' is the one closing it |
| NsdRendering.TagRuleWithReads | steg4_nsd_til_html.py:100-127 | bracketed content without ']' is read as its parts and the position after it |
| NsdRendering.TagRuleWithReadsAs | steg4_nsd_til_html.py:100-127 | bracketed content that splits into a word and text reads as them |
| NsdRendering.TagContentOf | steg4_nsd_til_html.py:114 | a word and stripped text without ']' split back into themselves |
| NsdRendering.TagRuleReads | steg4_nsd_til_html.py:98-128 | a bracketed word and attribute text are read as them, ending after the brackets |
| NsdRendering.WordRun | steg4_nsd_til_html.py:147 | the tag name scan takes the longest run of word characters |
| NsdRendering.TagEndAt | steg4_nsd_til_html.py:147 | a tag found at '<' ends with its '>' inside the text |
| NsdRendering.TagEndOf | steg4_nsd_til_html.py:147 | a tag content of a word, blanks and text without '>' is matched up to its '>' |
| NsdRendering.TagEndSound | steg4_nsd_til_html.py:147 | a match found satisfies the pattern |
| NsdRendering.TagEndSpec | steg4_nsd_til_html.py:147 | the match is found exactly where the pattern holds |
| NsdRendering.PreprocessPlain | steg4_nsd_til_html.py:141-151 | text without '<' is copied |
| NsdRendering.PreprocessTag | steg4_nsd_til_html.py:141-151 | a custom tag becomes the bracketed form and the rest is processed on |
| NsdRendering.DropSign | steg4_nsd_til_html.py:51-69 | dropping a sign does not lengthen the text |
| NsdRendering.DigitRun | steg4_nsd_til_html.py:51-69 | the digit scan takes the longest run of digits |
| NsdRendering.ProcessEntry | steg4_nsd_til_html.py:35-62 | one loop step of the imperative builder is the specified step |
| NsdRendering.ProcessLatitude | steg4_nsd_til_html.py:44-56 | a latitude step adds the position row when both values parse as floats and marks the latitude's value and the longitude key |
| NsdRendering.BuildTagView | steg4_nsd_til_html.py:17-81 | the imperative builder computes the display name, rows and map link |
| NsdRendering.FromOrderGrow | steg4_nsd_til_html.py:35 | a row made from a prefix of the order is made from the whole order |
| NsdRendering.RowStepRows | steg4_nsd_til_html.py:35-62 | a step adds no row or one row made from its entry |
| NsdRendering.RowsShape | steg4_nsd_til_html.py:30-62 | the rows are the type row followed by rows made from entries of the order |
| NsdRendering.TypeRowFirst | steg4_nsd_til_html.py:30-61 | the first row is the capitalised type attribute, or tag type without one, and no other row is labelled Type |
| NsdRendering.MapRowSpec | steg4_nsd_til_html.py:64-72 | the map row is there exactly when the map link is; it then is the last row, with two non-empty numbers taken from center_lat or lat and center_lon or lon |
| NsdRendering.RowStepProcessed | steg4_nsd_til_html.py:33-62 | a step marks only its key, a longitude key or a latitude value |
| NsdRendering.ProcessedWithin | steg4_nsd_til_html.py:33-62 | every processed key comes from the order, is a longitude key or is some latitude's value |
| NsdRendering.RowsPrefix | steg4_nsd_til_html.py:35-62 | the rows of a prefix of the order are a prefix of the rows |
| NsdRendering.DisplayOrderKeys | steg4_nsd_til_html.py:22-28 | the display order's keys are distinct and none is "type" |
| NsdRendering.RowStepText | steg4_nsd_til_html.py:37-62 | a shown, unprocessed, non-coordinate key adds its labelled row |
| NsdRendering.TextRowShownIn | steg4_nsd_til_html.py:35-62 | for any order with distinct keys, a shown non-coordinate key gets its labelled row unless a latitude value equals it |
| NsdRendering.TextRowShown | steg4_nsd_til_html.py:22-62 | every shown attribute of the display order that is not a coordinate gets its labelled row, unless a latitude value happens to equal its key |
| NsdRendering.RenderAttrsFree | steg3_identifiser_entiteter.py:536-540 | a character no pair holds and no separator adds is absent from the written attributes |
| NsdRendering.RenderAttrsEnds | steg3_identifiser_entiteter.py:536-540 | written attributes start with the first key's first character and end with '"' |
| NsdRendering.RenderedParts | steg3_identifiser_entiteter.py:536-540 | for renderable parts the attribute text is stripped and free of '>' and ']' |
| NsdRendering.TagContentWord | steg4_nsd_til_html.py:147 | a word, a space and text without '>' form a tag content |
| NsdRendering.PreprocessOne | steg4_nsd_til_html.py:141-151 | a single custom tag becomes its bracketed form |
| NsdRendering.PreprocessRendered | steg4_nsd_til_html.py:141-151 | a tag as step 3 writes it is bracketed by the preprocessing |
| NsdRendering.TagRuleRendered | steg4_nsd_til_html.py:98-128 | the rule reads the bracketed tag's type and attribute text |
| NsdRendering.TokenRendered | steg4_nsd_til_html.py:85-125 | the token holds the tag type and the dictionary of the written pairs |
| NsdRendering.TagSurvivesRendering | steg3_identifiser_entiteter.py:525-540 | a tag written by step 3 without '"', '>' or ']' in its values is bracketed, read by the rule as its type and attribute text, and tokenised with the dictionary of its pairs |
| NsdRendering.WordRunWord | steg4_nsd_til_html.py:147 | the word scan of a word followed by a non-word character is that word |

## Findings

| source | as written | input that shows it | evidently intended | confidence | as-written member | corrected member |
|---|---|---|---|---|---|---|
| steg3_identifiser_entiteter.py:397 | `replace('"', '"')` replaces a double quote with itself, so a value's quotes are written unescaped inside the `"`-delimited attribute | the value `a"b` under key `k` is written as `k="a"b"`, which reads back as `k` = `a` | each `"` written as `&quot;`, as the docstring's step 4 announces | medium, not executed | `EntityMatching.QuoteEndsValueEarly` | `EntityMatching.FixedTagReadBack` |

The tag writer `EntityMatching.EnrichTag` follows the code, with the quote replacement as written. `EntityMatching.FixedEnrichTagOf` is the same writer with the corrected escape; its tags always read back (`EntityMatching.FixedTagReadBack`), and the two writers agree on every tag whose values hold no '"' (`EntityMatching.TagPartsAgree`).

## Left out

- Reading and writing files, the command-line wrappers, the report printers and debug logging: they are I/O. The index, the ending map and the documents are parameters.
- The memoisation of the prepared index (`_get_prepared_index`, `lru_cache`): it changes how often work is done, not its result.
- The `or load_...()` fallbacks that load the default index or ending map when the caller passes an empty one: they read files.
- The downloaders, steps 1 and 2 of the document pipeline and the statistics scripts: they are outside the modelled core.
- The haversine distance: floating-point trigonometry. Distance is a function parameter, and the model proves what follows from its values.
- Markdown rendering by markdown-it, the HTML template and `html.escape` in step 4: a foreign library and output formatting. The model covers the tag rule, the attribute parser and the tooltip rows.
- The register lookup section of step 3 (`steg3_identifiser_entiteter.py:409-485`), including the mapping of "innsjoe" to "innsjø": the looked-up attributes are an input to the tag rewrite.
- The document scraping and `main` of step 3: I/O.
- Watercourse numbers that are not strings: the number is modelled as a string, for which `str(v)` is `v`.
- Full Unicode: characters are classified, case-folded and split on whitespace over a fixed alphabet of ASCII plus æ, ø and å.
- `int()` in `nve_data/find_common_endings2.py` is modelled on ASCII digits, with an optional sign and single underscores between digits; the other Unicode digits Python accepts are not.
- The text `float()` accepts for a latitude or longitude in step 4 is modelled as a signed decimal with an optional exponent, `inf`, `infinity` or `nan`, whitespace around; the underscores Python allows between digits are not.
- Suffixes.CollectSuffixes: among endings of equal length the order follows Python's set iteration and is left unspecified.
- Suffixes.LongestFirstOrder: the same, for the stand-in of `sorted(..., key=len, reverse=True)` over a set.
- NsdRendering.TagSurvivesRendering: requires the attribute values to hold no `"`, `>` or `]`, because step 3 escapes none of them (its quote replacement is the identity, see Findings).
- EntityMatching.TagReadBack: holds only for tags whose written values hold no `"`, because as written a value with one ends early (`EntityMatching.QuoteEndsValueEarly`); `EntityMatching.FixedTagReadBack` states it for every tag of the corrected writer.
- EntityMatching.PartsReadable: the same requirement and the same reason; `EntityMatching.FixedPartsReadable` states it without it.
