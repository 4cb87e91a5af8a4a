# same_image_locator in Dafny

same_image_locator finds byte-identical and visually similar images in a
directory tree. It groups them, stages each group into a decision folder
with a tab-separated manifest, lets a person pick the files to keep in a
small local review server, and puts the survivors back. The repository has
three generations of the script:

- `find_dupe_images.py`, the staging script;
- `dupes.py`, the interactive script;
- `main.py`, the report-only script.

It also has two review servers: `web_review.py` (the first, single-file
server) and `modules/web_review.py`.

This project models the grouping engine and the review decisions, and
proves what they promise:

- **Fingerprints.** Hamming distance is the popcount of an xor. The average
  hash is packed from a grey-pixel block: most significant bit first in the
  staging script (`ImageHash.AverageHashMsbFirst`), least significant bit
  first in the other two (`ImageHash.AverageHashLsbFirst`). The comparison
  `px >= sum / len` is done exactly, as `px * len >= sum`.
- **Exact groups.** Files are bucketed by size, then by digest
  (`ExactBuckets`). Both dictionaries' key orders are their insertion
  orders, keys in the order first met (`ExactBuckets.FirstKeys`), and the
  kept buckets follow `by_hash`'s order (`ExactBuckets.KeptOrder`). Each script's group
  list is proved against the finished buckets:
  - every group is a digest bucket of two or more files, in path order;
  - no digest is used twice;
  - every bucket of two or more files is reported;
  - the groups come largest first, ties by key, where the script sorts.
- **Perceptual groups.** The script variants cluster greedily from seeds,
  each as written:
  - the staging script uses a shrinking `remaining` list over path-sorted
    input (`FindDupeImages.PerceptualGroups`);
  - the other two use a `used` set in scan order (`Greedy.Clusters`), with
    recorded distances (`Dupes.FindPhashGroups`) or without them
    (`MainScript.GroupPerceptualDuplicates`).

  The staging script's loop is proved to emit exactly a reference
  clustering (`FindDupeImages.Rounds`) that seeds each round with the first
  image still waiting. Every variant is proved to give well-formed groups
  that are pairwise disjoint. It is also proved "maximal": nothing within the threshold of a
  group's seed is left ungrouped. Any two ungrouped images are farther apart
  than the threshold.
- **Helpers.**
  - The confidence ladder that `dupes.py`'s report prints.
  - Threshold clamping and mode normalisation.
  - `choose_keep_file`.
  - `safe_unique_name`, proved to return the first free `stem__i.suffix`.
  - The manifest writers and readers, with round-trip lemmas for each pair.
  - The survivor-restoring decisions of `move_back_survivors`.
- **Review servers.** Both are Dafny classes whose methods are the request
  handlers (`LegacyReview.ReviewServer`, `Review.ReviewServer`). Each
  method's contract states the whole new state:
  - keep toggling;
  - the two-click Finished confirmation and its reset;
  - preferring a folder, with a most-recent-first folder order;
  - the remembered preference applied when a group is set;
  - auto-finish, which is only available in exact mode.

The file system is passed in as values:

- a file's size, digest and fingerprint are maps, and a missing key is a
  failed `stat`, a failed read or an undecodable image;
- a directory listing is a sequence or a map of entries;
- the paths that exist are a set;
- a manifest is its text, or `None` when the file is missing;
- a group folder's state file is an entry of the server's
  `states: map<Path, State>`. A missing entry is a missing file or one that
  is not valid JSON.

A JSON key missing from a state file reads as its default, and `State`
holds those defaults.

Two edge cases of the confidence label:

- Called with distances that all equal the threshold t (a total of t per
  distance and a largest distance of t), `confidence_label` answers
  "maybe, double-check" for every t above 1, and "very likely" for t = 1,
  because `max(1, 1 // 2) == 1` (`Dupes.AllAtThreshold`).
- A reported group's distances also hold its seed at 0, and the report
  averages over them. So a group whose other files all sit exactly at a
  threshold t >= 2 is rated "LIKELY" while it has at most four files, and
  "MAYBE" only from five files on. A pair at distance 2 with threshold 2 is
  "LIKELY" (`Dupes.SeedThenAtThreshold`).

## Model

| member | source | states |
|---|---|---|
| Bits.HammingSymmetric | find_dupe_images.py:74-75 | the distance between two fingerprints does not depend on their order |
| Bits.HammingZeroIff | dupes.py:81-82 | the distance is 0 exactly when the two fingerprints are equal |
| Bits.HammingAtMostWidth | main.py:94-95 | two fingerprints below 2^k differ in at most k bits (64 for 8x8 hashes) |
| ImageHash.AverageHashMsbFirst | find_dupe_images.py:84-88 | no hash for an empty block (the mean divides by zero); otherwise the result is below 2^n, and bit n-1-i is set exactly when pixel i is at least the mean |
| ImageHash.AverageHashLsbFirst | dupes.py:73-78 | no hash for an empty block; otherwise the result is below 2^n, bit i is set exactly when pixel i is at least the mean, and no bit at n or above is set (identical in main.py:86-91) |
| ImageHash.HashAll | find_dupe_images.py:186-190 | the hashing loop collects, in order, exactly the listed files that can be hashed, with their fingerprints |
| ImageHash.HashedMembers | dupes.py:150-155 | a file is hashed exactly when it is listed and its fingerprint can be computed |
| ImageHash.HashedFrom | main.py:141-147 | every hashed entry is a listed file with its own fingerprint, and every hashable listed file is hashed |
| Scan.IterFiles | find_dupe_images.py:38-46 | the walk yields, in listing order, exactly the selected entries: regular files whose lower-cased suffix is an image extension, or every regular file with `include_all` |
| Scan.SelectedPathsMembers | find_dupe_images.py:22-46 | a path is yielded exactly when some listed entry for it is a regular file that passes the extension filter (or `include_all` holds) |
| Scan.IncludeAllKeepsEveryFile | find_dupe_images.py:40-43 | with `include_all`, every regular file is yielded |
| Text.Hex16RoundTrip | find_dupe_images.py:211 | a 64-bit fingerprint formats to exactly 16 lower-case hex digits that read back as the fingerprint |
| Paths.StemSuffix | find_dupe_images.py:230-231 | stem followed by suffix is the file name again |
| Paths.NameOfJoin | find_dupe_images.py:227 | the name of `dir / name` is the name, and its parent is the directory |
| Modes.NormalizeMode | modules/web_review.py:105-108 | the mode is always one of exact/ahash/phash: the lower-cased request when it is one of them, otherwise exact |
| Modes.NormalizeIdempotent | modules/web_review.py:105-108 | normalising a normalised mode changes nothing |
| Modes.NormalizeIgnoresCase | modules/web_review.py:105 | "PHASH", "Phash" and "phash" normalise alike |
| ExactBuckets.BucketBySize | find_dupe_images.py:133-138 | `by_size` maps each size to the listed files of that size in listing order; its keys are the sizes in the order first met in the listing (`FirstKeys`), and files whose `stat` fails are in no bucket |
| ExactBuckets.CollectDigestBuckets | find_dupe_images.py:140-149 | `by_hash` holds, for each digest, exactly the files that have a shared size and that digest; its keys are the digests in the order first met while the size buckets of two or more files are walked in `by_size`'s order (`HashOrder`) |
| ExactBuckets.FirstKeysNoDup | find_dupe_images.py:131-136 | a dict filled from a listing has each key once |
| ExactBuckets.FirstKeysMembers | find_dupe_images.py:131-136 | its keys are exactly the keys of the listed files that have one |
| ExactBuckets.FirstKeysPrefix | find_dupe_images.py:131-136 | reading more of the listing only appends keys, so keys stand in the order of their first file |
| ExactBuckets.KeptListOrder | find_dupe_images.py:151-155 | the kept buckets' digests are `by_hash`'s keys in order, less the digests with fewer than two files |
| ExactBuckets.MembersIff | find_dupe_images.py:132-149 | a file reaches digest bucket d exactly when it is listed, its size is shared with another listed file, and its digest is d |
| ExactBuckets.LoneSizeExcluded | find_dupe_images.py:141-143 | a file alone in its size bucket is never hashed, so it is in no group |
| ExactBuckets.FailedExcluded | find_dupe_images.py:134-149 | a file whose `stat` or digest fails is in no group |
| ExactBuckets.KeptListComplete | find_dupe_images.py:151-155 | every digest bucket of two or more files is kept |
| ExactBuckets.KeptListDistinct | find_dupe_images.py:151-155 | no digest is kept twice |
| ExactBuckets.KeptDigestBuckets | dupes.py:113-137 | the kept buckets are well formed (two or more files, path-sorted, exactly the bucket's members), pairwise distinct, and complete, and their digests are `by_hash`'s keys in insertion order less those of one file (`KeptOrder`) |
| ExactBuckets.KeptFiles | main.py:104-128 | every file of a kept bucket was listed, shares its size with another listed file, and has the bucket's digest |
| FindDupeImages.ClampThreshold | find_dupe_images.py:469 | the threshold is clamped into 0..64: unchanged inside, 0 below, 64 above |
| FindDupeImages.GroupModeFromDir | find_dupe_images.py:434-439 | the mode read back is always a known one, and exact when the metadata has none |
| FindDupeImages.GroupModeRoundTrip | find_dupe_images.py:434-439 | a recorded known mode reads back as itself; an unknown one reads back as exact |
| FindDupeImages.FindExactGroups | find_dupe_images.py:132-157 | every group is exact mode, filed under its digest, and is a kept bucket; digests are distinct; every bucket of two or more files is a group; groups are ordered by (-count, digest) |
| FindDupeImages.NearFarSplit | find_dupe_images.py:203-208 | the cluster part holds exactly the candidates within the threshold of the seed and the survivor part exactly the others, losing none; the survivors keep path order |
| FindDupeImages.Sweep | find_dupe_images.py:203-208 | the loop's cluster and survivors are `Near` and `Far` of the candidates: split by the threshold, losing none, the survivors in path order |
| FindDupeImages.SeedTakesNear | find_dupe_images.py:198-212 | a seed with a candidate within the threshold emits a group keyed by its fingerprint, led by its own path, holding every candidate within the threshold |
| FindDupeImages.FirstWaitingSeeds | find_dupe_images.py:196-212 | on path-sorted waiting images, the first one seeds the next group when anything is within the threshold of it: the group is keyed by its fingerprint, starts with its path and holds every waiting image within the threshold |
| FindDupeImages.RoundsAdvance | find_dupe_images.py:196-221 | one round keeps "groups found so far, then the reference rounds over what waits" unchanged |
| FindDupeImages.RunRounds | find_dupe_images.py:196-221 | the `while remaining` loop emits exactly the reference rounds (`Rounds`: first waiting image as seed each time), and ends with the clustering invariant |
| FindDupeImages.EmitFirst | find_dupe_images.py:199-212 | with path-sorted input, the seed is the first (smallest) path of the group it emits |
| FindDupeImages.EmitClustered | find_dupe_images.py:210-220 | an emitted group has at least two sorted files, is keyed by the seed's 16-digit hex fingerprint, records the mode, threshold and hash size, and every file is within the threshold of the seed |
| FindDupeImages.PerceptualGroups | find_dupe_images.py:172-223 | the groups are exactly the reference rounds over the hashed files in path order, sorted by (-count, key) (`SortedRounds`), so each seed is the first path still waiting; every group is well formed (as in EmitClustered); no file is in two groups; nothing within the threshold of a seed is ungrouped; ungrouped hashed images are pairwise farther apart than the threshold |
| Staging.AlternativeInjective | find_dupe_images.py:234 | different counters give different `stem__i.suffix` names |
| Staging.FirstFree | find_dupe_images.py:232-237 | the loop stops at the first counter i >= 1 whose name is free, and every earlier name is taken |
| Staging.SafeUniqueName | find_dupe_images.py:226-237 | the path returned is free: the plain name when it is free, otherwise the first free `stem__i.suffix` counting from 1 (identical in dupes.py:202-213) |
| Manifest.Get | dupes.py:283 | `get` finds a key exactly when some entry has it |
| Manifest.Put | find_dupe_images.py:279 | after `mapping[k] = v`, k maps to v and every other key is unchanged |
| Manifest.PutKeys | find_dupe_images.py:279 | assigning an existing key keeps the key order, and a new key goes last |
| Manifest.FromPairsLastWins | find_dupe_images.py:275-279 | a key read several times maps to the value of its last line |
| Manifest.FromPairsDistinct | find_dupe_images.py:275-279 | with distinct moved paths, nothing is overwritten and order is kept |
| Manifest.ParseLine | find_dupe_images.py:278 | a line without a tab cannot be unpacked; otherwise the line splits at its first tab into the moved path and the original |
| Manifest.ReadManifest | find_dupe_images.py:270-280 | a missing file reads as an empty mapping; blank lines are skipped; a non-blank line without a tab aborts the read; each line assigns moved to original |
| Manifest.ParseLinesFails | find_dupe_images.py:275-279 | reading fails exactly when some non-blank line has no tab |
| Manifest.EncodeAlwaysTerminated | find_dupe_images.py:238-245 | the staging script's manifest text always ends in a newline, and is a lone newline for no pairs |
| Manifest.EncodeTerminatedIfAny | dupes.py:216-223 | the other writer's text is empty exactly when there are no pairs; otherwise it is the same text as the staging script's |
| Manifest.AlwaysTerminatedRoundTrip | find_dupe_images.py:240-245 | reading back what this writer wrote gives the pairs assigned in order, for paths without tabs or line breaks |
| Manifest.TerminatedIfAnyRoundTrip | dupes.py:216-236 | the same for the writer that writes an empty file for no pairs |
| Manifest.DistinctRoundTrip | find_dupe_images.py:240-280 | with distinct moved paths, both writers' files read back as exactly the pairs written, in order |
| Manifest.ParseLinesByNameFails | modules/web_review.py:166-171 | the review server's reader fails exactly when some non-blank line has no tab |
| Manifest.ByNameFailsLikeByPath | modules/web_review.py:157-172 | reading by file name fails on exactly the files that reading by path fails on |
| Manifest.ByNameLastWins | modules/web_review.py:166-171 | a file name maps to the original of the last line whose moved path has that name |
| Manifest.ByNameRoundTrip | modules/web_review.py:157-172 | a written manifest, empty or not, read by name gives the written pairs with each moved path cut to its name, assigned in order |
| Greedy.Absorb | dupes.py:169-177 | the sweep for seed i takes only later unused images within the threshold, each once, and marks them used; every later image left unused is beyond the threshold |
| Greedy.Clusters | dupes.py:157-179 | every kept cluster has at least two images, all listed, hashed and within the threshold of the seed; clusters share no path; nothing within the threshold of a seed is left unclustered; unclustered images are pairwise beyond the threshold |
| Dupes.FindExactGroups | dupes.py:113-139 | every group is exact mode without diagnostics and is a kept bucket under its digest; keys are distinct; every bucket of two or more files is present; groups are ordered by (-count, key) |
| Dupes.Distances | dupes.py:166-176 | definition: the seed is recorded at distance 0, and each absorbed image at its Hamming distance from the seed |
| Dupes.MakeGroup | dupes.py:179-192 | the group is keyed "ahash<= t", is phash mode, records the seed and threshold, and holds the path-sorted files and the distances sorted by (distance, path) |
| Dupes.BuiltShape | dupes.py:179-192 | a group built from a kept cluster is a perceptual group: at least two distinct sorted files, all within the threshold of the seed; the distances hold the seed at 0, are true distances within the threshold, and cover exactly the files |
| Dupes.FindPhashGroups | dupes.py:145-196 | every group is a perceptual group (as in BuiltShape); no file is in two groups; nothing within the threshold of a seed is ungrouped; ungrouped images are pairwise farther apart than the threshold; groups are ordered by (-count, str(seed)) |
| Dupes.ConfidenceLabel | dupes.py:313-321 | the label is one of the four, and "EXTREMELY likely" whenever the largest distance is 0, whatever the threshold |
| Dupes.ConfidenceMonotone | dupes.py:313-321 | larger distances never strengthen the label, and a larger threshold never weakens it |
| Dupes.AllAtThreshold | dupes.py:313-321 | `confidence_label` given distances that all equal the threshold t (total t per distance, largest t) answers "MAYBE" for t >= 2 but "VERY likely" for t = 1 |
| Dupes.ReportLabel | dupes.py:324-336 | the report's label is the exact-mode one exactly for exact groups; a perceptual group is "EXTREMELY likely" exactly when every distance it records is 0, none at all included |
| Dupes.SumSeedThen | dupes.py:332-333 | the sum the report averages, for distances that are 0 at the head and t elsewhere, is t per non-seed distance |
| Dupes.AverageAtThreshold | dupes.py:320 | one 0 and n - 1 copies of t average within 3/4 of t exactly when n <= 4 |
| Dupes.SeedThenAtThreshold | dupes.py:324-336 | a group whose seed is at 0 and whose other files are all at the threshold t is "VERY likely" for t = 1; for t >= 2 it is "LIKELY" with at most four files and "MAYBE" with more |
| Dupes.MaxOf | dupes.py:334 | `max(only) if only else 0`: at least every element, itself an element when there is one, and 0 for none |
| Dupes.FoundGroupLabel | dupes.py:324-336 | a found perceptual group is rated "EXTREMELY likely" exactly when all its files share the seed's fingerprint, and with threshold at most 1 it is at least "VERY likely" |
| Dupes.Survivors | dupes.py:270-274 | the survivors are exactly the regular files of the folder other than the manifest and the preview page |
| Dupes.ByName | dupes.py:286-289 | the value of the first manifest entry whose moved path has file name n, and none when no entry has it |
| Dupes.FindByName | dupes.py:286-289 | the fallback loop breaks at the first entry with the name, as ByName states |
| Dupes.Origin | dupes.py:283-289 | a survivor maps through its own entry when there is one, otherwise through the first entry with its name; it has none exactly when no entry matches by path or by name |
| Dupes.RestorePlan | dupes.py:282-306 | survivors are handled in order: no origin leaves the file; a free origin is its target; an occupied origin is redirected to the first free `stem__i.suffix` beside it; each move frees the old path and takes the target |
| Dupes.MoveBackSurvivors | dupes.py:268-307 | a malformed manifest aborts before any decision; otherwise the plan is the RestorePlan of the manifest's mapping for the folder's survivors |
| Dupes.NeverOverwrites | dupes.py:297-306 | no restore lands on an existing file, and a survivor whose origin is free goes exactly there |
| Dupes.LeftExactlyWhenUnmapped | dupes.py:291-295 | a survivor is left in the folder exactly when no manifest entry matches it by path or by name |
| MainScript.GroupExactDuplicates | main.py:104-129 | every group is a kept bucket under its digest; keys are distinct; every bucket of two or more files is reported; the groups are in `by_hash`'s insertion order (`KeptOrder`) |
| MainScript.MakeGroup | main.py:165-168 | the group is keyed "ahash<= t" and holds the cluster's paths sorted |
| MainScript.BuildGroups | main.py:165-168 | one group per kept cluster, in the order found |
| MainScript.BuiltShape | main.py:165-168 | a group built from a kept cluster has at least two distinct sorted files, all within the threshold of the seed |
| MainScript.GroupPerceptualDuplicates | main.py:132-169 | every group is well formed (as in BuiltShape); no file is in two groups; every group has a member (its seed) within the threshold of all its files such that no hashed file within the threshold of that seed is ungrouped; ungrouped images are pairwise beyond the threshold |
| MainScript.FirstLargest | main.py:174 | `max(key=size)`: a file of the largest size, the first such in the list |
| MainScript.FirstSmallest | main.py:176 | `min(key=size)`: a file of the smallest size, the first such in the list |
| MainScript.ChooseKeepFile | main.py:172-178 | none for an empty list or when a size is needed but unknown; otherwise, as `prefer` asks, the first file of the largest size, the first file of the smallest size (every earlier file is strictly smaller or larger), or the least path |
| MainScript.KeepFirstOnEqualSizes | main.py:172-178 | when every file has the same size, as in an exact group, "largest" and "smallest" both keep the group's first path |
| MainScript.SortedFirstLeast | main.py:178 | the first of the sorted paths is a listed path no greater than any other |
| MainScript.SuggestedDupes | main.py:231-234 | the files printed as duplicates are exactly the group's paths other than the kept one |
| MainScript.SuggestedDupesCount | main.py:231-234 | with distinct paths that include the kept one, exactly one file is not printed |
| ReviewFolder.Members | web_review.py:205 | definition: `set(keep)`, the names in the list |
| ReviewFolder.ShownNames | web_review.py:115-120 | definition: the regular files whose lower-cased name is none of the hidden ones |
| ReviewFolder.SortedOf | web_review.py:184 | `sorted(set)` is ascending, holds no name twice, and holds exactly the set's members |
| ReviewFolder.SortedSetUnique | modules/web_review.py:295 | a set has only one sorted duplicate-free listing, so sorting before or after filtering gives the same list |
| ReviewFolder.Toggled | web_review.py:178-182 | the toggled name flips its membership and every other name keeps it |
| ReviewFolder.ToggledTwice | modules/web_review.py:288-293 | toggling a name twice restores the selection |
| LegacyReview.ListImages | web_review.py:112-123 | the listed names are exactly the shown files, sorted, each once, skipping the manifest, the preview page and the state file |
| LegacyReview.ReviewServer.constructor | web_review.py:33-46 | a new server has no group, no result and no Finished click recorded |
| LegacyReview.ReviewServer.SetGroup | web_review.py:72-83 | the group is set, the earlier result dropped, and a fresh state written only when the folder has none; an existing state keeps its selection and count |
| LegacyReview.ReviewServer.ToggleKeep | web_review.py:162-186 | an empty name gives 400 first, then no group gives 400, then an unshown name gives 404, none changing anything; otherwise only the selection changes, to the sorted toggled set |
| LegacyReview.ReviewServer.Finished | web_review.py:188-210 | no group gives 400; otherwise the count goes up by one and only it changes; the review is confirmed exactly when the count, after the increment, is at least 2, with the stored selection as the result |
| LegacyReview.ReviewServer.ResetFinished | web_review.py:212-220 | no group gives 400; otherwise only the count changes, to 0 |
| LegacyReview.ConfirmFreshGroup | web_review.py:188-210 | on a newly set group without a state file, the first Finished does not confirm and the second confirms an empty selection |
| Review.ItemOf | modules/web_review.py:195-202 | a file's folder is the parent of its recorded original, or "unknown" with an empty path when there is no (or an empty) original |
| Review.FoldersHere | modules/web_review.py:84 | definition: the folder paths of the shown files |
| Review.InFolder | modules/web_review.py:93 | definition: the shown files whose original lived in the folder |
| Review.FirstIn | modules/web_review.py:85-88 | the first position of the order holding one of the folders, or the end when none does |
| Review.RememberedFolder | modules/web_review.py:79-91 | a selected folder is the first of the preference order that some shown file comes from, never empty; when the order holds no empty path, none is selected exactly when no preferred folder is present |
| Review.MoveToFront | modules/web_review.py:337-340 | the folder comes first and only once, holds exactly the old entries plus the folder, and keeps the order duplicate-free |
| Review.ReadManifestByName | modules/web_review.py:157-172 | the reader loop gives the name-keyed mapping, later lines winning, and fails on a non-blank line without a tab |
| Review.ListItems | modules/web_review.py:174-211 | fails exactly when the manifest read fails; otherwise lists exactly the shown files in name order, each with its folder |
| Review.ItemsShown | modules/web_review.py:279 | the listed names are exactly the shown files |
| Review.ItemsFoldersHere | modules/web_review.py:84 | the folder paths of the listed items are the folders of the shown files |
| Review.ItemsInFolder | modules/web_review.py:329-331 | the listed names under folder fp are the shown files from it |
| Review.FolderInGroup | modules/web_review.py:83-91 | the search over the listed items finds the remembered folder |
| Review.KeepFromFolder | modules/web_review.py:93-96 | the new selection is `sorted(set(...))` of the shown files from the folder |
| Review.Initialized | modules/web_review.py:112-121 | definition: the group's state is kept when it exists and is fresh otherwise; no other state changes |
| Review.ReviewServer.constructor | modules/web_review.py:27-45 | a new server has no group, exact mode, no result, an empty preference order and auto-finish off |
| Review.ReviewServer.ApplyGlobalFolderPreference | modules/web_review.py:71-99 | a malformed manifest raises with nothing changed; with no preferred folder present nothing changes; otherwise only the group's selection (exactly that folder's shown files) and preferred folder change, and the Finished count is left alone |
| Review.ReviewServer.SetGroup | modules/web_review.py:101-128 | the group and normalised mode are set and the result dropped; a missing state is initialised; the remembered preference is applied; auto-finish becomes the global choice in exact mode and off otherwise; the Finished count survives |
| Review.ReviewServer.ToggleKeep | modules/web_review.py:270-297 | no group gives 400; a malformed manifest raises; an unshown name gives 404; none of these changes anything; otherwise only the selection changes, to the sorted toggled set |
| Review.ReviewServer.PreferFolder | modules/web_review.py:299-345 | preferring the preferred folder again clears the preference and leaves the selection; otherwise, with a group, the selection becomes exactly that folder's shown files, the folder is preferred, and a non-empty path moves to the front of the order |
| Review.ReviewServer.ToggleAutoFinish | modules/web_review.py:347-374 | no group gives 400; outside exact mode the folder's auto-finish is switched off and 400 returned; in exact mode the global choice flips and is stored |
| Review.ReviewServer.Finished | modules/web_review.py:376-397 | no group gives 400; otherwise only the count changes, up by one; confirmed exactly when the new count is at least 2, with the stored selection as the result |
| Review.ReviewServer.ResetFinished | modules/web_review.py:399-407 | no group gives 400; otherwise only the count changes, to 0, and the selection is untouched |
| Review.ConfirmAfterReset | modules/web_review.py:376-407 | after a reset, the first Finished does not confirm and the second confirms the selection as it stood |

## Left out

- SHA-256 and the chunked read (`sha256_file`) are not modelled. A digest is an uninterpreted string given per file, and a missing entry is a failed read.
- Image decoding is not modelled: Pillow, EXIF transpose, grey conversion and Lanczos resizing. The average hash starts from the decoded pixel block.
- The DCT hash (`phash_64`, `_dct_basis`, `_dct_2d`) is floating-point matrix work and is not modelled. A fingerprint is a natural number given per file.
- File-system effects are not modelled:
  - `rglob`, `iterdir` and `stat`;
  - moves, copies, `mkdir`, `expanduser` and `resolve`;
  - the retrying delete and copy helpers;
  - the staging of groups into decision folders;
  - `find_pending_group_dirs`.

  Their inputs and outcomes are passed in as maps, sets and sequences.
- `Dupes.MoveBackSurvivors`: the result is the list of decisions, and the moves themselves are not performed. `original.expanduser()` and the parent `mkdir` are left out.
- Paths are POSIX strings compared part by part. Windows case-insensitive comparison and path normalisation are left out.
- `Order.PathLe` splits a path at '/', so "/a" has the parts "" and "a". This is pathlib's order from Python 3.12 on. Before 3.12, pathlib's first part of "/a" is "/", and the two orders differ only when a single list mixes absolute and relative paths.
- JSON persistence: malformed JSON and a state file's missing keys are modelled. A value of the wrong shape is not, for example a non-list `keep` or a non-integer `finished_clicks`. The state file's content is not modelled beyond its fields.
- `write_group_meta` and `read_group_meta`: only the "mode" entry is modelled, as an optional string. `str()` of a non-string value is not.
- Flask routes, responses and request parsing are modelled only as the outcome of each handler. Not modelled:
  - `threading.Lock` and `Event`;
  - `start` and `wait_result`;
  - the browser;
  - the `api_group` view and the file-serving routes.
- `Review.ReviewServer.PreferFolder`: the toggle-off path runs outside the lock in the source. Interleaving with other requests is not modelled.
- The terminal UI (`ui_console.py`), the HTML preview and page, `open_in_explorer`, argument parsing and the wiring in each `main()` are left out. Report printing is left out except the label `print_group_report` chooses (`Dupes.ReportLabel`).
- Dupes.ConfidenceLabel: the float comparison `avg <= threshold * 0.75` is decided as `4 * total <= 3 * threshold * count`. Float rounding is not modelled. The two agree for the small integers involved.
- Dupes.FindPhashGroups: states the shape, disjointness, maximality and order of the groups. It does not state that each seed was the first unused image in scan order.
- MainScript.GroupPerceptualDuplicates: its groups have no seed field, so maximality is stated through a seed that some member of each group witnesses. It does not state that this seed was the first unused image in scan order, so a grouping that a different scan order would produce would also meet the contract.
- Greedy.Clusters: does not state that each seed is the first unused image in scan order. The loop takes seeds that way, but no contract says it; unlike `FindDupeImages.PerceptualGroups`, the `used`-set variants are not tied to a reference clustering. Clustering is also seed-relative: no contract relates two non-seed members of a cluster.
- `str.lower` is modelled on ASCII letters only (`Text.Lower`). It decides three things: whether a group's mode is known (`Modes.NormalizeMode`), whether a file's suffix is an image extension (`Scan.Selected`), and whether a review folder's file is one of the hidden names (`ReviewFolder.ShownNames`, used by both review servers' listing and toggle). Python also lowers two non-ASCII characters to ASCII: U+0130 gives "i" followed by U+0307, which never equals an ASCII name, and U+212A KELVIN SIGN gives "k". No mode, image extension or hidden name contains "k", so these three decisions are the same either way.
- `read_manifest`: paths containing a tab or a line break cannot be written and read back, and a pair of two blank paths writes a line that `strip()` empties, so the reader skips it. The round-trip lemmas require paths without a line break, a moved path without a tab, and a moved path that is not blank (`Manifest.Writable`); this excludes more than the two-blank case, for instance a blank moved path with a non-blank original.
- LegacyReview.ReviewServer: `_finished_once` is reset by `set_group` and is never read, so no contract depends on it.
