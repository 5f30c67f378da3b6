# Release and evaluation algorithms of the power-framework, verified

The `scripts/` directory of the power-framework holds the programs that rebuild a source
distribution deterministically, score rankings, strip comments from client configuration, order
versions, install a skill tree, and bind a release to its provenance. This project models their
algorithms in Dafny and proves what they are relied on for, over all inputs.

| file | models |
|---|---|
| `Archive.dfy`, `Extraction.dfy`, `LinkModes.dfy` | `scripts/normalize_sdist.py`: hard-link depths, member order, rewritten metadata; two extractors, one of which applies the modes of hard links, that give an archive its meaning |
| `Ranking.dfy`, `Relevance.dfy` | `scripts/benchmark_phase5e_shadow.py`: DCG, nDCG, average precision, reciprocal rank, recall, context precision |
| `Deduplication.dfy` | `scripts/benchmark_phase5e_r6.py`: order-preserving removal of repeats before scoring |
| `Holdout.dfy` | `scripts/phase5e_holdout_scoring_r6a2.py`: the holdout scorer's metrics and averages |
| `Jsonc.dfy` | `scripts/prxmx_power_runtime_audit.py`: the comment scanner and the comment stripper |
| `Versions.dfy` | the version comparison of the same file |
| `SkillNames.dfy`, `SkillSwap.dfy` | the skill payload's names and the skill-tree update of the same file, with its rollback |
| `TreeHash.dfy` | `scripts/build_release_manifest.py`: the byte stream behind the tree hash |
| `Authority.dfy` | `scripts/phase5e_r6a1_admission.py`: authority metrics of a ranked candidate list |
| `Bindings.dfy`, `Provenance.dfy`, `ReceiptSubjects.dfy`, `ReceiptArguments.dfy`, `ReceiptEntries.dfy` | `scripts/release_bindings.py`, `scripts/generate_release_receipt.py`, `scripts/verify_public_release_bindings.py`: shared value checks, provenance record, attestation subjects and roles |
| `Attestation.dfy`, `AttestationEvidence.dfy`, `AttestationOrder.dfy` | `scripts/verify_attestation_provenance.py`: the search for a matching attestation, what a match shows, and why the order of siblings never matters |
| `Seqs.dfy`, `Lex.dfy`, `Sorting.dfy`, `Wrappers.dfy` | shared vocabulary: repeats, lexicographic order, Python's stable sort, results and names |

Code that changes state step by step is a method or a class: the memo table of the link depths
(`Archive.DepthTable`), the three directories of the skill update (`SkillSwap.Site`), and every loop.
Each such method is proved against a specification, and the properties are proved of that
specification.

## Conventions

- Floats are reals. The discount `1 / log2(i + 2)` and the gain `2^g - 1` are parameters
  (`Ranking.Weights`) of which only positivity, strict monotonicity and `gain(0) = 0` are used.
- Rank cuts `k` are naturals, as every caller passes; `compute_context_precision` alone handles a cut
  that is not positive, and so does its model.
- Extraction follows link semantics: a hard link shares its target's node, so content and executable
  bit come from the member at the end of the chain. An entry carries the member that created its node,
  which makes sharing visible. A later member of a name replaces the node the name was bound to, as GNU
  tar does, and is not written into it. Python's own extractor also applies a hard link's mode to the
  shared file; `LinkModes.ExtractModes` adds that.
- Member names are flat and compared as written, as the program compares them. A name that passes
  through a symbolic link is not resolved. Extractors take `./a` for `a`: a hard link to `./a` beside the
  member `a` extracts for them and is refused by the program, so what is said of archives that extract
  is said of names in one spelling.
- The content of a member is what reading it returns. A sparse header of the old GNU form reads through
  the map it holds and is empty without it.
- Names are byte strings. For valid text, UTF-8 order is code-point order, so sorting bytes and sorting
  the decoded names agree.
- SHA-256, concept mapping, the skill update's path rule (whose concrete form is in `SkillNames`) and the
  way an attestation reads repository names, commits and run ids out of text are function parameters:
  what is proved holds for every choice of them.
- Both sides of the provenance check are proved to agree for every lawful set of value checks, and the
  checks in force are proved lawful (`Bindings.ReleaseRulesLawful`, `ReceiptSubjects.ReleaseChecksLawful`).

## What the code does that its description does not say

- **Sparse members lose their content.** An old GNU sparse member counts as a regular file. Its type byte
  is copied to the output and its map is not, so what follows the header reads back as an empty file
  (`Extraction.SparseContentLost`). Rewriting keeps an archive's meaning exactly when no name is bound to
  such a member with content (`Extraction.NormalizingPreservesExtraction`).
- **Repeated names in an archive.** The memo table of the member order is keyed by name. An archive in
  which one name is both a file and a hard link can extract before normalisation and not after it
  (`Extraction.RepeatedNameBreaksLink`). When the members of a name are all hard links to one target, or
  none is a hard link (`Archive.Uniform`), the output extracts to what the archive means, and to what
  the original extracts to exactly when that leaves no name on a node that a later member replaces
  (`Extraction.AllFresh`). The members `b`, `a` linked to `b`, and `b` again leave one there
  (`Extraction.ReplacedTargetChanges`); an archive in which only members other than links and their
  targets repeat names leaves none, nor does a good archive appended to itself
  (`Extraction.PlainRepeatsAreFresh`, `Extraction.AppendedTwice`).
- **Disagreeing link modes.** With links to one file whose executable bits disagree, an extractor that
  applies link modes leaves the bit of the last one, and the new order can change which one that is
  (`LinkModes.DisagreeingModesChange`). It produces the same exactly when, besides, the last member of
  each file's link chains carries the same bit in both orders (`LinkModes.NormalizingPreservesModes`).
- **A fault while staging a skill deletes the installed one.** `apply_skill_update` sets `previous` only
  after staging; an earlier exception reaches `scripts/prxmx_power_runtime_audit.py:1965`, which removes
  an existing target. A stale aside directory that cannot be cleared has the same effect: it is moved
  onto the target. `SkillSwap.KeepsOldTree` is the exact condition under which a failed update restores
  the old tree.
- **A skill name is checked by its parts and hashed as written.** A name with an empty or a dot segment,
  such as one with a doubled slash, passes the path rule, is written without that segment and is read
  back under the shorter name. The update then fails and rolls back without any fault
  (`SkillSwap.DoubledSlashFails`). Without faults it goes through exactly when the names as the disk has
  them hash like the payload (`SkillSwap.FaultFreeOutcome`).
- **The receipt generator accepts more than the verifier.** It compares the set of role values with
  `{package, web}`, so two package identities pass; the verifier wants one identity per role. A
  generated receipt is accepted exactly when there are two identities, those the workflow reported if it
  reported any (`ReceiptSubjects.GeneratedIsVerifiedIffTwo`); three are a counterexample for any digests
  (`ReceiptSubjects.ThreeIdentitiesUnderReleaseChecks`).
- **The holdout scorer does not remove repeats.** If all lists of a run are non-empty and one of them
  repeats one of its first 64 ids, however late, the artifact's schema refuses the run for some ground
  truth that the loader lets through: the mean average precision exceeds 1
  (`Holdout.EarlyRepeatRefused`). So when no list is empty and none repeats only ids that first come
  after rank 64, a run is accepted under every such ground truth exactly when no list repeats an id
  (`Holdout.AcceptanceNeedsDistinct`). An empty list scores 0 and can hide a repeat elsewhere in the run
  (`Holdout.EmptyListHidesRepeat`).
- **Empty cases differ.** With nothing relevant, or no gain, the shadow metrics say 1 and the holdout
  metrics 0 (`Holdout.NdcgAgreement`, `Holdout.RecallAgreement`).
- **The tree stream needs NUL-free names**, and exactly that (`TreeHash.DecodeEncode`,
  `TreeHash.NulNamesCollide`). The callers' path rules exclude NUL.

## Model

| member | source | states |
|---|---|---|
| Archive.DepthTable.DependencyDepth | scripts/normalize_sdist.py:117-135 | the memoised, cycle-detecting recursion over one shared cache, for any list of members; it terminates because the names being resolved grow inside the index |
| Archive.ResolveCorrect | scripts/normalize_sdist.py:113-135 | when members of one name agree on what they link to, a returned depth is the true length of the link chain and the cache stays right; an error names a missing target or a member that really reaches itself on the chain |
| Archive.OrderedMembers | scripts/normalize_sdist.py:110-140 | keys computed in member order over one cache, then a stable sort by depth and name; the first failing key is the error |
| Archive.OrderedOutcome | scripts/normalize_sdist.py:117-140 | ordering succeeds exactly when every link chain ends at a present member that is not a hard link; otherwise the reported error is true of some member |
| Archive.NormalizeTar | scripts/normalize_sdist.py:143-156 | the archive written member by member in order, type byte kept and the map of a sparse header dropped; an unsupported type stops it |
| Archive.WriteAllOutcome | scripts/normalize_sdist.py:68-107 | writing succeeds exactly on supported members and rewrites each in its place |
| Archive.FlagsExactly | scripts/normalize_sdist.py:52-53 | the type bytes that count as file, directory, symbolic link and hard link |
| Extraction.OrderingKeepsMembers | scripts/normalize_sdist.py:137-140 | for every archive, with any repeats, the output holds the same members of each name in the same order |
| Extraction.OrderedIsOrdering | scripts/normalize_sdist.py:137-140 | the output holds the same members of each name in the same order, sorted by true chain length, then by name |
| Extraction.OutputOrder | scripts/normalize_sdist.py:46-49 | of two written members the earlier one has the shorter link chain, or the same length and a name that is a prefix of the other or has the smaller byte at their first difference |
| Extraction.TargetsFirst | scripts/normalize_sdist.py:111-140 | every hard link comes after all members of its target's name, and there is one |
| Extraction.DirectoriesFirst | scripts/normalize_sdist.py:46-49 | a directory comes before every member whose name extends its name |
| Extraction.FreshMeans | scripts/normalize_sdist.py:110-140 | an archive that extracts, extracts to its meaning exactly when no name is left on a node that a later member replaces |
| Extraction.OutputMeaning | scripts/normalize_sdist.py:92-156 | the rewritten archive extracts, each name bound to the last node at the end of its link chain with the same sharing, sparse files emptied |
| Extraction.NormalizingPreservesExtraction | scripts/normalize_sdist.py:92-156 | that is what the archive means exactly when no name is bound to a sparse member with content, and what the original extracts to exactly when, besides, it leaves no name on a replaced node |
| Extraction.PlainRepeatsAreFresh | scripts/normalize_sdist.py:113-114 | when no hard link bears a repeated name or targets one, extracting is enough for that |
| Extraction.AppendedTwice | scripts/normalize_sdist.py:113-114 | so is it for a fresh archive appended to itself, hard links included |
| Extraction.SparseContentLost | scripts/normalize_sdist.py:56-107 | a sparse member with content reads back as an empty file after rewriting |
| Extraction.ReplacedTargetChanges | scripts/normalize_sdist.py:110-140 | an archive whose link target is replaced after the link, which extracts differently after rewriting |
| LinkModes.ExtractsModes | scripts/normalize_sdist.py:56-89 | applying link modes binds the same names to the same nodes, each with the mode of the last member that touched it |
| LinkModes.NormalizingPreservesModes | scripts/normalize_sdist.py:56-156 | an extractor that applies link modes produces the same exactly when the plain one does and the last member of each file's chains carries the same executable bit in both orders |
| LinkModes.AgreeingBitsSuffice | scripts/normalize_sdist.py:56-89 | bits that agree along each chain meet that condition |
| LinkModes.DisagreeingModesChange | scripts/normalize_sdist.py:137-140 | a file and two links with different bits, in an order that rewriting changes |
| Extraction.ExtractableIsNormalizable | scripts/normalize_sdist.py:110-156 | an archive of supported members that extracts is never refused, whatever names it repeats |
| Extraction.NormalFormIsCanonical | scripts/normalize_sdist.py:56-89 | two archives normalise to the same members exactly when, name by name, they agree in everything that is written; members of different names may come in any order |
| Extraction.DistinctArchivesPermute | scripts/normalize_sdist.py:137-140 | for archives without repeated names, agreeing name by name is holding the same members |
| Extraction.WrittenEssence | scripts/normalize_sdist.py:56-107 | what is written is name, type byte, link name, one executable bit of files and links, and the content of a regular file or the size field of another member; times, owners, device numbers, PAX headers, other mode bits and the map of a sparse header are forgotten |
| Extraction.OutputMetadata | scripts/normalize_sdist.py:56-107 | every written member keeps its name, type and link name and has the given time, owner 0 and `root`, no PAX fields, and mode 777, 755 or 644; a regular file has its content and its length as size, any other member no content |
| Extraction.ExecutableDigits | scripts/normalize_sdist.py:65 | executable means that one of the last three octal digits of the mode is odd |
| Extraction.NormalizingTwice | scripts/normalize_sdist.py:143-156 | a second normalisation is accepted; it changes nothing, another timestamp replacing the first, exactly when no member is sparse with content |
| Extraction.RepeatedNameBreaksLink | scripts/normalize_sdist.py:113-123 | an archive in which one name is a file and then a hard link, which extracts before and not after |
| Ranking.ComputeDcg | scripts/benchmark_phase5e_shadow.py:227-232 | the loop adds up gain times discount over the first k grades |
| Ranking.ComputeNdcg | scripts/benchmark_phase5e_shadow.py:235-241 | actual over ideal gain, 1 when there is no ideal gain |
| Ranking.SwapNeverLowers | scripts/benchmark_phase5e_shadow.py:227-232 | moving the larger of two grades to the earlier rank never lowers the gain, and raises it when the grades differ |
| Ranking.Rearrangement | scripts/benchmark_phase5e_shadow.py:235-241 | no draw of at most k grades beats the first k of the sorted list, and a draw that equals it agrees with it at every rank |
| Ranking.NdcgBounded | scripts/benchmark_phase5e_shadow.py:235-241 | nDCG is between 0 and 1 when the first k ids are distinct, and 1 exactly when every rank carries the ideal grade or there is no gain |
| Ranking.GradeFound | scripts/benchmark_phase5e_shadow.py:236-237 | an id has the grade of its entry, and 0 without one |
| Ranking.DcgRank | scripts/benchmark_phase5e_shadow.py:227-232 | each rank below the cut adds the gain of its grade times the discount of that rank, and nothing else adds anything |
| Ranking.BestFirstScoresOne | scripts/benchmark_phase5e_shadow.py:235-241 | ranking the graded ids by descending grade scores 1 at any cut |
| Ranking.OneGradedId | scripts/benchmark_phase5e_shadow.py:235-241 | one graded id scores the discount of its rank over that of the first rank, and 0 below the cut |
| Deduplication.NdcgBoundNeedsDistinct | scripts/benchmark_phase5e_shadow.py:235-241 | nDCG stays within 1 for every grading exactly when the first k ids are distinct |
| Relevance.ComputeAveragePrecision | scripts/benchmark_phase5e_shadow.py:244-254 | the loop computes the mean precision at relevant ranks over the relevant count |
| Relevance.ComputeReciprocalRank | scripts/benchmark_phase5e_shadow.py:257-262 | the early-return loop finds the first relevant rank |
| Relevance.HitsVersusItems | scripts/benchmark_phase5e_shadow.py:265-270 | counting hits counts relevant items exactly when none of them is repeated |
| Relevance.AveragePrecisionBounded | scripts/benchmark_phase5e_shadow.py:244-270 | for a duplicate-free ranking, average precision is between 0 and full-list recall, which is at most 1, and its multiple by the relevant count is at least the reciprocal rank |
| Relevance.AveragePrecisionIsOne | scripts/benchmark_phase5e_shadow.py:244-254 | it is 1 exactly when the first items are the relevant ones |
| Relevance.AveragePrecisionBoundNeedsDistinct | scripts/benchmark_phase5e_shadow.py:244-254 | it stays within 1 for every relevant set exactly when the ranking has no repeats |
| Relevance.RecallBoundNeedsDistinct | scripts/benchmark_phase5e_shadow.py:265-270 | recall stays within 1 for every relevant set exactly when the cut has no repeats |
| Relevance.RatesBounded | scripts/benchmark_phase5e_shadow.py:257-279 | reciprocal rank and context precision are always between 0 and 1 |
| Relevance.PrecisionAtRank | scripts/benchmark_phase5e_shadow.py:248-254 | each relevant rank adds the share of relevant ranks up to it, no other rank adds anything, and the sum is over the number of relevant ids |
| Relevance.ReciprocalOfFirst | scripts/benchmark_phase5e_shadow.py:257-262 | the inverse of the first relevant rank, 0 without one |
| Relevance.RatesOfRanks | scripts/benchmark_phase5e_shadow.py:265-279 | recall and context precision count the relevant ranks above the cut, over the relevant ids and over the cut |
| Relevance.OneRelevant | scripts/benchmark_phase5e_shadow.py:244-262 | with one relevant id both average precision and reciprocal rank are the inverse of its rank |
| Relevance.PromotionRaises | scripts/benchmark_phase5e_shadow.py:244-254 | moving a relevant id up past one that is not raises average precision |
| Deduplication.DedupPreserveOrder | scripts/benchmark_phase5e_r6.py:281-288 | the loop over `seen` and `out` |
| Deduplication.DedupDistinct | scripts/benchmark_phase5e_r6.py:281-288 | no repeats, same elements |
| Deduplication.DedupInOrder | scripts/benchmark_phase5e_r6.py:281-288 | the result lists exactly the first occurrences, in their order |
| Deduplication.DedupIdempotent | scripts/benchmark_phase5e_r6.py:281-288 | it changes nothing exactly on lists without repeats, and is idempotent |
| Deduplication.DedupCoversPrefix | scripts/benchmark_phase5e_r6.py:281-288 | the first k results cover every element of the raw first k |
| Deduplication.DedupMeetsBounds | scripts/benchmark_phase5e_r6.py:408-453 | after removal of repeats recall never drops and every metric is within 0 and 1, whatever the raw ranking |
| Holdout.AveragePrecision | scripts/phase5e_holdout_scoring_r6a2.py:58-67 | the scorer's loop agrees with the shadow metric, except that nothing relevant scores 0 |
| Holdout.NdcgAgreement | scripts/phase5e_holdout_scoring_r6a2.py:70-80 | sorting gains and sorting grades give the same nDCG exactly when there is gain to be had |
| Holdout.RecallAgreement | scripts/phase5e_holdout_scoring_r6a2.py:47-48 | the two recalls agree exactly when something is relevant and no relevant item is repeated above the cut |
| Holdout.ScoreRecords | scripts/phase5e_holdout_scoring_r6a2.py:126-155 | the averaging loop and the schema's ranges; an empty run is an error |
| Holdout.OneQuery | scripts/phase5e_holdout_scoring_r6a2.py:126-143 | one query is averaged to its own scores, with recall cut at 5, nDCG at 10, and leaks the excluded ids among the first ten |
| Holdout.OneTarget | scripts/phase5e_holdout_scoring_r6a2.py:43-80 | with one relevant and graded id at rank p recall is 1 within 5 ranks, reciprocal rank and average precision the inverse rank, and nDCG its discount within 10 ranks |
| Holdout.NothingRelevant | scripts/phase5e_holdout_scoring_r6a2.py:47-80 | a query with nothing relevant and nothing graded scores 0 throughout |
| Holdout.RunsAdd | scripts/phase5e_holdout_scoring_r6a2.py:126-155 | the averages of two runs together are theirs weighted by their queries, and leaks add up |
| Holdout.CleanRunsAccepted | scripts/phase5e_holdout_scoring_r6a2.py:126-155 | a non-empty run whose lists have no repeats is always within the schema |
| Holdout.AcceptanceNeedsDistinct | scripts/phase5e_holdout_scoring_r6a2.py:126-155 | a run of non-empty lists, each without repeats or repeating one of its first 64 ids, is accepted under every receivable ground truth exactly when no list repeats an id |
| Holdout.EarlyRepeatRefused | src/power_framework/core/evaluation_contracts.py:580-605 | one such repeat is enough: some ground truth with at most 64 relevant ids, all of them graded, makes the schema refuse the run |
| Holdout.FewIdsRepeatEarly | src/power_framework/core/evaluation_contracts.py:580-582 | a list with at most 64 different ids repeats one of its first 64, if any |
| Holdout.EmptyListHidesRepeat | scripts/phase5e_holdout_scoring_r6a2.py:126-155 | a repeated list beside an empty one is accepted under every receivable ground truth |
| Jsonc.HasComments | scripts/prxmx_power_runtime_audit.py:1214-1244 | the scanner reports a comment exactly when the lexer finds one |
| Jsonc.StripComments | scripts/prxmx_power_runtime_audit.py:1247-1293 | the stripper with its two inner loops, including the step past the end of an unterminated block comment |
| Jsonc.LiteralClosesAtFirstQuote | scripts/prxmx_power_runtime_audit.py:1221-1230 | a literal runs through the first quote that an even number of backslashes precedes |
| Jsonc.LexFrom | scripts/prxmx_power_runtime_audit.py:1247-1293 | lexing goes on in the same way from every token on |
| Jsonc.SlashStartsComment | scripts/prxmx_power_runtime_audit.py:1276-1290 | a slash that no literal or comment holds starts a comment exactly when a slash or a star follows |
| Jsonc.OtherTokens | scripts/prxmx_power_runtime_audit.py:1259-1274 | anywhere else a quote starts a literal and any other character stands alone |
| Jsonc.LineCommentEnds | scripts/prxmx_power_runtime_audit.py:1278-1282 | a line comment holds no CR and no LF and is followed by one of them or by the end of the text |
| Jsonc.BlockCommentEnds | scripts/prxmx_power_runtime_audit.py:1283-1288 | a block comment ends with the first closing mark after its opening, or with the text when there is none |
| Jsonc.LiteralEnds | scripts/prxmx_power_runtime_audit.py:1259-1274 | a literal opens with a quote and ends with the first quote that an even number of backslashes precedes, or with the text |
| Jsonc.LexLossless | scripts/prxmx_power_runtime_audit.py:1247-1293 | the reference lexer of strings and comments loses nothing |
| Jsonc.StrippedTokens | scripts/prxmx_power_runtime_audit.py:1247-1293 | lexing the stripped text gives exactly the tokens that are not comments |
| Jsonc.StrippingIsFixpoint | scripts/prxmx_power_runtime_audit.py:1214-1293 | the stripped text has no comment and stripping it again changes nothing |
| Jsonc.ScannersAgree | scripts/prxmx_power_runtime_audit.py:1214-1293 | the scanner reports comments exactly when the stripper changes the text |
| Jsonc.StrippingKeepsStrings | scripts/prxmx_power_runtime_audit.py:1247-1250 | the string literals, escapes included, survive, and the output is exactly the other tokens joined |
| Jsonc.KeptAround | scripts/prxmx_power_runtime_audit.py:1247-1250 | of the tokens exactly the comments are dropped and each other one keeps its place |
| Versions.CompareAtWidth | scripts/prxmx_power_runtime_audit.py:383-397 | pairwise padding gives the same answer as any common width |
| Versions.CompareIsTotalPreorder | scripts/prxmx_power_runtime_audit.py:383-397 | sign-antisymmetric and transitive, strictly too |
| Versions.CompareZeroIffSameTrimmed | scripts/prxmx_power_runtime_audit.py:383-397 | 0 exactly when the keys agree up to trailing zero components |
| Versions.ReleaseDecides | scripts/prxmx_power_runtime_audit.py:383-397 | the first differing component decides, absent ones counting as zero |
| Versions.SuffixDecides | scripts/prxmx_power_runtime_audit.py:391-397 | equal releases are told apart by phase, then by the pre-release number, then by the post-release number |
| Versions.PhasesInOrder | scripts/prxmx_power_runtime_audit.py:330-380 | development, alpha, beta and candidate releases come in that order before the release, post-releases after it, and within a phase the number decides |
| SkillSwap.Site.Stage | scripts/prxmx_power_runtime_audit.py:1928-1935 | staging writes the whole payload, under the names path handling makes of its names, or stops at a fault |
| SkillSwap.Site.Install | scripts/prxmx_power_runtime_audit.py:1927-1956 | where the three directories stand after success and after each kind of fault |
| SkillSwap.Site.Rollback | scripts/prxmx_power_runtime_audit.py:1957-1967 | what the exception handler restores, removes and leaves |
| SkillSwap.Site.ApplySkillUpdate | scripts/prxmx_power_runtime_audit.py:1889-1967 | an update is refused beforehand exactly for an empty payload, a target that is not allowed, an unsafe name or a wrong hash; success means the safe files read back hash like the payload; without faults that is when the names as staged hash like the payload; a failure restores the old tree, or its absence, exactly under `KeepsOldTree`; even when the rollback fails the old tree is in one of two places; a staging fault deletes it |
| SkillSwap.StagedReadsBack | scripts/prxmx_power_runtime_audit.py:410-428 | what staging writes of a payload of safe names is read back whole |
| SkillSwap.LastContent | scripts/prxmx_power_runtime_audit.py:1928-1933 | a tree holds for each name the last content given for it |
| SkillSwap.StagedIsPayload | scripts/prxmx_power_runtime_audit.py:1928-1935 | what is staged is the payload exactly when path handling leaves every name alone |
| SkillSwap.FaultFreeOutcome | scripts/prxmx_power_runtime_audit.py:1927-1956 | without faults the update goes through exactly for such names, when the hash tells the two trees apart |
| SkillSwap.DoubledSlashFails | scripts/prxmx_power_runtime_audit.py:445-459 | a doubled slash in any safe name gives a payload that passes every check and fails without a fault |
| SkillNames.NormalNames | scripts/prxmx_power_runtime_audit.py:141-164 | path handling leaves a relative name alone exactly when no segment of it is empty or a dot |
| SkillNames.SegmentsRefused | scripts/prxmx_power_runtime_audit.py:148-153 | a segment that goes up, is hidden, is a bytecode cache, or holds a colon or a NUL makes a name unsafe |
| SkillNames.PlainNamesSafe | scripts/prxmx_power_runtime_audit.py:155-164 | a plain name is safe alone exactly as an allowed top-level file, and below a directory exactly when directory and extension are allowed |
| SkillNames.PosixPathLawful | scripts/prxmx_power_runtime_audit.py:141-164 | a rewritten name is rewritten no further and stays safe |
| SkillNames.DoubledSlash | scripts/prxmx_power_runtime_audit.py:141-164 | doubling a slash keeps a name as safe as it was and writes to the same place under a name that is never read back |
| TreeHash.AggregateStream | scripts/build_release_manifest.py:22-29 | the loop feeds name, NUL and content digest in sorted order |
| TreeHash.DecodeEncode | scripts/build_release_manifest.py:25-28 | a decoder recovers the entries exactly when no name holds a NUL |
| TreeHash.StreamIgnoresInsertionOrder | scripts/build_release_manifest.py:25 | the stream depends on the map alone |
| TreeHash.StreamInOrder | scripts/build_release_manifest.py:25-28 | the stream decodes to one entry for each file, each name before the ones it is a prefix of or has the smaller first differing byte against |
| TreeHash.Layout | scripts/build_release_manifest.py:25-28 | the stream is, entry after entry, the name, a NUL and the content digest |
| TreeHash.StreamDeterminesTree | scripts/build_release_manifest.py:22-29 | two trees give the same stream exactly when they hold the same names with the same content digests |
| TreeHash.NulNamesCollide | scripts/build_release_manifest.py:25-28 | with a NUL in a name two different trees collide, all names being ASCII text, for any content whose digest is ASCII |
| Authority.CollectLowerConcepts | scripts/phase5e_r6a1_admission.py:88-97 | the loop over the grades collects the competing concepts |
| Authority.CountOrderViolations | scripts/phase5e_r6a1_admission.py:131-141 | the flag-based scan counts exactly the eligible positions of level 0 or 1 with an earlier eligible position of level 4 or 5 |
| Authority.EvaluateAuthority | scripts/phase5e_r6a1_admission.py:57-154 | every metric in its declarative reading, the candidates' concepts in order and the competing concepts sorted; outranked is 1 exactly when a lower competitor precedes the first winner item with canonical provenance |
| Authority.OnlyEligibleCandidatesMatter | scripts/phase5e_r6a1_admission.py:72-141 | two lists with the same eligible subsequence have the same metrics |
| Authority.MissingWinnerIsNotOutranked | scripts/phase5e_r6a1_admission.py:67-69 | a missing winner is never outranked nor out of order |
| Authority.BelowCanonicalFails | scripts/phase5e_r6a1_admission.py:42-54 | a winner for which only candidates below the canonical level stand has no provenance |
| Authority.CanonicalCandidateProves | scripts/phase5e_r6a1_admission.py:42-54 | one canonical candidate with a ledger or project-state basis or a canonical source type is enough; without either it is not |
| Authority.CompetitorsOfGroundTruth | scripts/phase5e_r6a1_admission.py:88-97 | of the outcomes a grade can have, exactly `do_not_cite` and `report_conflict` make a concept compete, except for the expected winner's own source |
| Authority.LevelsExactly | scripts/phase5e_r6a1_admission.py:20-27 | the six levels in order, and which of them lie beyond each threshold of the metrics |
| Authority.OutrankedByUntrustedViolatesOrder | scripts/phase5e_r6a1_admission.py:99-141 | a proven winner below a competitor of level 4 or 5 counts in both metrics |
| Bindings.StripTrims | scripts/release_bindings.py:31-35 | stripping leaves no space at either end and changes nothing that has none |
| Bindings.StripAround | scripts/release_bindings.py:31-35 | stripping takes away nothing but spaces around the text |
| Bindings.RepositoryExactly | scripts/release_bindings.py:54-59 | a repository is a non-empty owner and a non-empty name around a slash |
| Bindings.TagExactly | scripts/verify_public_release_bindings.py:106-110 | a release tag is `v` and three numbers with dots between them |
| Bindings.ReleaseRulesLawful | scripts/release_bindings.py:8-59 | stripping is idempotent and a release tag has nothing to strip |
| Bindings.NormalizeIdAgain | scripts/release_bindings.py:14-28 | a canonical attestation identity is its own canonical form |
| Bindings.IdExactly | scripts/release_bindings.py:14-28 | a canonical identity is `github:` and a safe name, read from either form with or without space around it |
| Provenance.BuiltIsVerified | scripts/verify_public_release_bindings.py:132-280 | the receipt of a built record is accepted, the record returned unchanged, exactly when it meets the caller's expectations |
| Provenance.AcceptedIsBuildable | scripts/generate_release_receipt.py:65-168 | the verifier accepts no record that the generator could not have built |
| Provenance.GeneratorAndVerifierAgree | scripts/generate_release_receipt.py:65-168 | a record can be accepted exactly when it can be built |
| Provenance.BuiltExactly | scripts/generate_release_receipt.py:65-168 | a record is built exactly from inputs that say each of its fields, with one repository, one revision and one run id throughout, and an event, ref and protection that go together |
| Provenance.AcceptedExactly | scripts/verify_public_release_bindings.py:132-280 | a record is accepted exactly when the provenance object, the release block and the run block say each of its fields, event, ref and protection go together, and every expected value agrees, none missing in strict mode |
| Provenance.LegacyExactly | scripts/verify_public_release_bindings.py:163-168 | a receipt without provenance is let through exactly when it is not strict and nothing is expected |
| ReceiptSubjects.ParseAttestationRoles | scripts/generate_release_receipt.py:182-199 | the loop over role arguments with its refusals |
| ReceiptSubjects.RolesParsed | scripts/generate_release_receipt.py:182-199 | the arguments are accepted exactly when each splits, names a valid identity and an allowed role, and no identity comes twice; each identity then has the role of its one argument |
| ReceiptSubjects.ParsedSubjectsGood | scripts/generate_release_receipt.py:202-223 | parsed entries have distinct canonical identities, canonical digests and the role of their identity |
| ReceiptArguments.SplitExactly | scripts/generate_release_receipt.py:208 | an argument splits exactly at its first equals sign |
| ReceiptArguments.AddDigestExactly | scripts/generate_release_receipt.py:219 | adding a digest to an identity adds that digest and no other |
| ReceiptArguments.SubjectsExactly | scripts/generate_release_receipt.py:202-223 | subjects are parsed exactly when every argument splits and gives a valid identity and digest; each identity then has one entry with exactly the digests given to it, in order |
| ReceiptArguments.GenerateExactly | scripts/generate_release_receipt.py:289-345 | the generator accepts exactly arguments that are well formed by themselves and, unless there is no identity, give every identity a role and a digest, both roles, and each role its artifacts |
| ReceiptArguments.TwoIdentitiesVerified | scripts/verify_public_release_bindings.py:775-842 | every such input with two identities is generated and verified |
| ReceiptArguments.ReleaseCallVerified | scripts/generate_release_receipt.py:289-345 | the arguments of the release workflow, one package and one web identity, are generated and verified, and all three package digests are written |
| ReceiptSubjects.VerifySubjects | scripts/verify_public_release_bindings.py:775-842 | the loop accepts exactly the well-formed entries with distinct identities that cover the expected digests, one identity per role, and are those the workflow reported if it reported any |
| ReceiptEntries.AcceptedIsPair | scripts/verify_public_release_bindings.py:775-842 | what is accepted is exactly two entries, a package entry with the three package digests and a web entry with the image digest, of the two identities of the manifest |
| ReceiptEntries.PairIsAccepted | scripts/verify_public_release_bindings.py:775-842 | every such pair is accepted, in either order |
| ReceiptSubjects.ReleaseChecksLawful | scripts/verify_public_release_bindings.py:120-129 | reading an identity or a subject a second time changes nothing |
| ReceiptSubjects.GeneratedIsVerifiedIffTwo | scripts/generate_release_receipt.py:289-345 | what the generator lets through is verified exactly when there are two identities and they meet the optional expectation |
| ReceiptSubjects.ThreeIdentitiesUnderReleaseChecks | scripts/generate_release_receipt.py:304-308 | three identities that the generator accepts and the verifier refuses |
| Attestation.UnitsAreOutermost | scripts/verify_attestation_provenance.py:114-126 | the search yields exactly the outermost units of any JSON tree, each once, none inside another |
| Attestation.VerifyPayload | scripts/verify_attestation_provenance.py:305-393 | once the expected values pass their checks, a payload is verified exactly when one outermost unit alone meets every binding |
| AttestationEvidence.UnitExactly | scripts/verify_attestation_provenance.py:129-135 | a unit is an object with an attestation object and a verification result object |
| AttestationEvidence.MeetsExactly | scripts/verify_attestation_provenance.py:129-381 | a unit meets the policy exactly when its statement and certificate show, each at its place: the signer URI and our workflow or certificate, the commit, the run, the predicate type, and a subject with the name and digest |
| AttestationEvidence.VerifiedExactly | scripts/verify_attestation_provenance.py:332-381 | a payload has a match exactly when one outermost unit shows all of this by itself |
| AttestationEvidence.PolicyExactly | scripts/verify_attestation_provenance.py:319-329 | each expected value is checked, read and used in its own place |
| Attestation.SearchUnits | scripts/verify_attestation_provenance.py:332-381 | for any condition on one unit, the loop finds a match exactly when one outermost unit meets the condition alone, and returns the matches in order |
| Attestation.WalkVisitsEveryNode | scripts/verify_attestation_provenance.py:48-56 | the walk that collects evidence inside a unit visits exactly the nodes of its tree |
| Attestation.MatchCountAdditive | scripts/verify_attestation_provenance.py:114-126 | the match count is additive over list concatenation |
| Attestation.MatchCountPermuted | scripts/verify_attestation_provenance.py:114-126 | permuting the elements of a list leaves its match count alone |
| Attestation.MatchCountFieldsPermuted | scripts/verify_attestation_provenance.py:114-123 | permuting an object's members never makes or breaks a unit and leaves its count alone |
| AttestationOrder.MatchCountReplaced | scripts/verify_attestation_provenance.py:114-126 | a subtree that no unit encloses contributes its own match count and nothing else, at any path |
| AttestationOrder.ListPermutedAnywhere | scripts/verify_attestation_provenance.py:114-126 | permuting a list at any path outside the units keeps the count, for any condition on a unit |
| AttestationOrder.FieldsPermutedAnywhere | scripts/verify_attestation_provenance.py:114-123 | permuting an object's members at any path outside the units keeps the count, for any condition on a unit |
| AttestationOrder.AlikeUnitsMeetAlike | scripts/verify_attestation_provenance.py:129-302 | whether a unit meets the policy does not depend on the order of anything inside it, nor on repeated list elements |
| AttestationOrder.OrderNeverMatters | scripts/verify_attestation_provenance.py:332-381 | reordering list elements and object members at any number of places and at every depth, inside units too, keeps the number of matching units |
| AttestationOrder.SiblingsPermutedAnywhere | scripts/verify_attestation_provenance.py:332-381 | one permutation of siblings at any path of the payload, inside a unit too, keeps the number of matching units |

## Left out

- Extraction.NormalizingPreservesExtraction: stated for archives in which the members of a name are all hard links to one target or none is a hard link; an archive that mixes them may or may not survive, and the lemma on a repeated name shows one that does not. The other results on the order have the same guard.
- LinkModes.NormalizingPreservesModes: has the same guard.
- Attestation.VerifyPayload: inside one unit the evidence (workflow objects, revisions, run ids, subjects) is collected as sets, where the code appends in loops, because only membership is asked; the evidence repeated in the result is left out, and numbers are integers.
- Holdout.AcceptanceNeedsDistinct: runs with an empty list, or with a list that repeats only ids first seen after rank 64, are outside the equivalence; for them only the sufficient half is proved.
- SkillSwap.Site.ApplySkillUpdate: directories are maps from names to contents, so file modes are not represented, writing below a name that is a file is one of the staging faults, and a process killed between two steps is not modelled; the path rule raises on a name without parts, such as a single dot, where the model refuses it.
- Authority.EvaluateAuthority: the mapping from source ids to concepts is a parameter.
- Archive.NormalizeTar: tar and gzip encoding, timestamp parsing and the atomic replacement of the file are not modelled.
- Holdout.ScoreRecords: digests, epoch bindings and the match of query scopes are checked before the loop and are not modelled.
- Provenance.BuiltIsVerified: the checks are modelled as refused or passed, without their messages; `\d` in the tag pattern is read as an ASCII digit in the rules in force.
- ReceiptSubjects.VerifySubjects: the digests that the verifier recomputes from the downloaded files are taken to be those of the manifest, which it checks elsewhere.
- The regular expression that takes a version string apart; `Versions.KeyOf` starts from the parts it captures.
- The exec-wrapper resolver, which is bounded by its depth counter and otherwise reads the file system.
- Latency, report formatting, command lines and the field-by-field validators of evidence files.
