# ton-net, modelled and proved in Dafny

ton-net is a TON client that believes nothing a server says. Everything it answers is tied by
proof to one block hash its user vouches for: cells are identified by hash, a server's replies are
Merkle proofs, and the trusted block moves only along links that two thirds of a validator set
signed. This project models the algorithms those checks rest on and proves what they promise.
`dafny verify dfyconfig.toml` checks all of it.

## What is modelled

**The dictionary** (`Labels`, `DictTree`, `DictMap`, `DictBulk`, `DictCells`, `DictWrites`,
`DictRefines`, `Dicts`, `DictHistories`, `DictBuild`, `DictWalk`, `DictAug`, `DictCarried`). A
dictionary is a binary radix tree stored in cells of at most 1023 bits, and its root hash is its
identity, so one map must have one tree. `DictTree` is the tree on values, with canonicity;
`DictMap` ties it to finite maps; `DictCells` encodes a tree into cells with the real label codec
of `Labels`. The source's loops (lookup, descend, rebuild, bulk build, re-root, stacked walk) are
methods on cells, proved to compute what the tree operations compute, and `DictHistories` lifts
that to every history of writes. `Holds(shape, root, m, n)` says that `root` is the encoding of the
one well-formed, unpruned tree of the map `m` over `n`-bit keys; `Storable` says that such an
encoding exists.

**Cells, hashes and proofs** (`Packing`, `Cells`, `Hashing`, `Representation`, `Collisions`,
`Merkle`, `Usage`, `Reads`, `Layouts`, `Records`, `States`, `Verified`). The level-by-level
identity of a cell, pruning against a usage set, covering proofs, and the reads a client makes
through a proof. `Representation` says what a cell is hashed as without the recursion: its depth is
its longest path, and every byte has its place. `Records` and `States` hold each reader to the
format: which bits it accepts, and what it finds in a state or block laid out from the ground up.
`Covers(sha, p, f)` says that the proof tree `p` shows nothing that is not in the full tree `f`;
the end result is `Verified.AccountReadIsTrue`.

**The block chain** (`Validators`, `BlockReads`, `KeyBlocks`, `Chain`, `Sync`, `EndToEnd`).
Validator sets, the budgeted signature tally, links, chains, and the sync loop against a server
that answers anything at all. `KeyBlocks` builds a key block up from the validators in its
dictionary, and `EndToEnd` puts sync and read together.

**The bag of cells** (`Topology`, `PostOrder`, `BocBytes`, `Castagnoli`, `BocWrite`, `BocRead`,
`BocRoundTrip`, `BocExact`). The depth-first order, the one-buffer writer, the chunked writer, the
header reader and the builder of the cells, up to the round trip and its converse: what is accepted
is spelled one way. `Castagnoli` proves the checksum loop to be division by the polynomial it is
named for.

**The transport and the codecs** (`Adnl`, `Builders`, `Base64`). The two-counter ADNL stream with
its `intact` flag under cancellation at every await point, the bit-level builder and slice over
packed bytes, and both base64 decoders.

Loops in the source are loops here, and the objects it updates in place are classes: the
dictionary, its iterator, the usage tree, the round counter, the client, the chunk stream, the
byte reader, the ciphers, the connection, the builder and the slice.

## What is taken as given

- SHA-256 is a function parameter. Where a proof needs it not to collide, the lemma asks for
  `Distinct(sha, inputs)` over the finite set of byte strings that were actually hashed, never for
  injectivity on all inputs.
- Ed25519 verification, the ADNL keystream and the reading of a candidate's serialized block id
  are function parameters. The stream lemmas ask only that applying the keystream twice at one
  position gives the byte back.
- The server, the clock and where a transfer is cut are parameters: replies are arbitrary values,
  and every read and write has an arbitrary fate.
- An augmentation's read, combine and write are parameters, bound by the law that what is written
  reads back (`Lawful`), bits and references both. The plain shape is proved to meet it.

## What turned out to need a condition

- A bag's root count is written in the width of a cell position. With 256 or more roots over few
  cells it is cut, and the bag does not read back (`BocRoundTrip.ManyRootsOfOneCell`). It reads
  back exactly when the count fits and no tree is too deep to build (`BocRoundTrip.BagReadsBack`).
- An augmentation's summary may carry references. They go ahead of a leaf's own and ahead of a
  fork's children, and the readers do not step over them. So an entry reads back as its value
  exactly when its summary writes no reference (`DictCells.LeafReadsBack`; a failing entry is
  `DictCarried.EntryOpensOnItsSummary`), and a fork shows its children exactly when its summary
  writes none, or writes those very cells (`DictCarried.ForkShowsChildren`; a failing two-key tree
  is `DictCarried.PairIsMisread`). Members that follow cells down past forks ask for `ForksBare`:
  no combine gives a summary that writes a reference, which an augmentation's author can check.
  The plain shape meets it.
- The root's summary is its entries' summaries folded by rising key for every map exactly when the
  combine is associative (`DictAug.FoldsExactlyWhen`), which the source does not ask. Without that
  it is still the combine along the map's one tree (`DictAug.HeldIsCombined`).
- The signature tally spends at most two tries a member, so a padded list can be cut before a
  valid signature (`Validators.PaddingStarvesATally`, of any set and list, and
  `BlockReads.OneValidatorStarved`). It decides exactly what the entries within
  its budget decide (`Validators.TallyDecides`), which is what the whole list decides whenever
  each member is named at most twice. What it accepts was always signed.
- A map that single stores cannot begin to build may still have cells, and the bulk build then
  makes them (`DictBuild.BulkHoldsMore`). Each way of writing succeeds exactly when the maps it
  passes through have cells to hold them (`OutcomeSucceeds`, `BulkSucceeds`).
- A link compares heights as signed numbers and the client compares them unsigned. A chain whose
  ends rise unsigned rises at every step either way (`Chain.RisesUnsigned`).

## Model

All source paths below are relative to the repository root.

| member | source | states |
|---|---|---|
| Labels.EveryFormReadsBack | core/src/cell/dict/label.rs:273-339 | each of the three label forms, with anything after it, reads back as the label and leaves the cursor on what follows |
| Labels.RoundTrip | core/src/cell/dict/label.rs:318-421 | reading what the writer chose gives the label back, for every label no longer than the key |
| Labels.ReadSpends | core/src/cell/dict/label.rs:273-310 | whatever reads as a label spent exactly what one of the three forms costs |
| Labels.EncodeIsShortest | core/src/cell/dict/label.rs:382-421 | the written form is the shortest run of bits any reader takes for that label |
| Labels.ReadIsAForm | core/src/cell/dict/label.rs:273-310 | whatever reads as a label is, by how it opens, exactly one of the three forms of that label |
| Labels.TiesGoToTheFirst | core/src/cell/dict/label.rs:374-421 | of everything as short as the written form, none opens with an earlier constructor: short before long before same |
| Labels.OneWriting | core/src/cell/dict/label.rs:374-421 | a text as short as the written form and opening the same way is the written form, so the rule fixes every bit |
| Labels.EmptyLabel | core/src/cell/dict/label.rs:374-421 | the empty label is written as two zeros under every key width |
| Labels.TailCostsNoMore | core/src/cell/dict/label.rs:382-421 | a label cut at the front under a no wider key is never written longer, which is why carving cannot overflow a cell |
| DictTree.InsertReaches | core/src/cell/dict.rs:390-439 | a store gets through a tree exactly when a lookup of its key would not be withheld, and a whole tree stays whole |
| DictTree.RelabelGet | core/src/cell/dict.rs:457-496 | spending the front of an edge together with the same key bits changes no answer |
| DictTree.SplitGet | core/src/cell/dict.rs:457-496 | splitting an edge where the key leaves it adds exactly that key and disturbs no other |
| DictTree.InsertGet | core/src/cell/dict.rs:390-524 | a store changes the answer for its own key and for no other, partly withheld trees included |
| DictTree.MergeGet | core/src/cell/dict.rs:499-516 | a collapsed fork answers as its surviving side did, and is absent everywhere else |
| DictTree.DeleteMissing | core/src/cell/dict.rs:390-439 | a removal finds nothing exactly where a lookup says absent, and refuses where one is withheld |
| DictTree.DeleteGet | core/src/cell/dict.rs:499-524 | a removal changes the answer for its own key and for no other |
| DictTree.Canonical | core/src/cell/dict.rs:390-524 | two whole well-formed trees that answer every key alike are the same tree |
| DictMap.OneTreePerMap | core/src/cell/dict.rs:542-562 | a finite map over keys of one width has a single tree |
| DictMap.PutModels | core/src/cell/dict.rs:390-496 | a store takes the tree of a map to the tree of the updated map |
| DictMap.DropModels | core/src/cell/dict.rs:390-516 | a removal takes the tree of a map to the tree of the map without the key, and says whether it was there |
| DictMap.RerootGet | core/src/cell/dict.rs:651-701 | looking up k in the carved tree is looking up the prefix followed by k in the whole one, placeholders included |
| DictMap.RerootWhole | core/src/cell/dict.rs:651-701 | carving a whole tree never fails and leaves a whole tree |
| DictMap.RerootModels | core/src/cell/dict.rs:651-701 | carving is exact: the one tree of the carved map, and none exactly when no key begins with the prefix |
| DictMap.ItemsAscend | core/src/cell/dict.rs:714-754 | the entries of a tree come in strictly ascending key order |
| DictMap.ItemsAreAnswers | core/src/cell/dict.rs:714-754 | an entry is listed exactly when a lookup of its key finds it |
| DictMap.OneListing | core/src/cell/dict.rs:714-754 | a map has exactly one listing of its entries by rising key |
| DictBulk.StableSortKeepsLast | core/src/cell/dict.rs:542-562 | the stable sort orders the keys and keeps, for every key, the last value given |
| DictBulk.RunSplits | core/src/cell/dict.rs:577-636 | where the first and last key of a sorted run part, both sides are non-empty sorted runs sharing everything above |
| DictBulk.LayoutGet | core/src/cell/dict.rs:577-636 | a lookup in the tree a run lays out finds the last item given under the key |
| DictBulk.LayoutModels | core/src/cell/dict.rs:542-636 | a bulk build stands for the map the items give, the last duplicate winning |
| DictCells.TonLabelsExact | core/src/cell/dict/label.rs:318-421 | the label codec is exact: what it writes reads back, and what it reads fits the key |
| DictCells.PlainIsLawful | core/src/cell/dict/plain.rs:19-41 | the plain shape meets every law the general proofs ask of a shape, and writes no reference |
| DictCells.EncodedReads | core/src/cell/dict.rs:232-280 | a node's cell reads back as its edge and body, within a cell's bounds, and carries the mask its children imply |
| DictCells.EncodedFork | core/src/cell/dict.rs:265-280 | a fork's cell holds the summary its children combine to, and its references are the summary's own followed by the two children |
| DictCells.EncodedForkRefs | core/src/cell/dict.rs:265-280 | where combined summaries write no reference, a fork's two references are its children's cells |
| DictCells.FindLeaf | core/src/cell/dict.rs:306-359 | the loop answers, for any cell at all, what the recursive reading of the tree answers, refusals included |
| DictCells.LookupRefines | core/src/cell/dict.rs:306-359 | on the cells of a tree whose combined summaries write no reference, the walk finds, misses or is withheld exactly as the tree answers, landing on the leaf's own bits and references |
| DictCells.LandedAnswers | core/src/cell/dict.rs:106-110 | landing on an entry gives its value back exactly when the entry's summary writes no reference |
| DictCells.LeafReadsBack | core/src/cell/dict.rs:106-110 | a leaf, written and looked up, gives its value back if and only if its summary writes no reference |
| DictCells.ForkGoesOn | core/src/cell/dict.rs:306-359 | of any fork written, whatever its summary, a lookup goes on in the first or second reference of its cell, which are those of summary then children |
| DictWrites.Rebuild | core/src/cell/dict.rs:519-524 | the loop up the recorded path rebuilds every fork over its changed child, stopping at the first that does not fit |
| DictWrites.Descend | core/src/cell/dict.rs:390-439 | the loop down records every fork passed and stops where the key leaves the tree, for any cell at all |
| DictWrites.StoreDescends | core/src/cell/dict/plain.rs:142-173 | descending, changing what was reached and rebuilding is the recursive store, errors included |
| DictWrites.RemoveDescends | core/src/cell/dict/plain.rs:182-202 | descending, collapsing the parent and rebuilding is the recursive removal, errors included |
| DictRefines.SplitRefines | core/src/cell/dict.rs:457-496 | splitting a node's cell is splitting the node: same cell, or neither fits |
| DictRefines.CollapseRefines | core/src/cell/dict.rs:499-516 | collapsing a cell joins parent edge, branch bit and sibling edge into the merged node's own cell, and refuses a pruned sibling |
| DictRefines.StoreRefines | core/src/cell/dict.rs:390-524 | a store on cells is the store on trees: same cell, or refused exactly when the new tree does not fit |
| DictRefines.RemoveRefines | core/src/cell/dict.rs:390-524 | a removal on cells is the removal on trees, with the same three outcomes and refusals |
| Dicts.KeyOf | core/src/cell/dict.rs:292-303 | a key is refused exactly when it has fewer bits than the dictionary's width, and otherwise gives the first bits of its bytes, highest first |
| Dicts.Dict.FromRoot | core/src/cell/dict/plain.rs:88-91 | a dictionary is refused exactly when its key is wider than a cell |
| Dicts.Dict.Lookup | core/src/cell/dict/plain.rs:122-129 | the looping lookup of the stored root, a short key refused |
| Dicts.Dict.Store | core/src/cell/dict/plain.rs:142-173 | the root becomes the stored one, or is left as it was on every failure |
| Dicts.Dict.Remove | core/src/cell/dict/plain.rs:182-202 | the root becomes the one without the key and the answer says whether it was there; every failure leaves it as it was |
| DictHistories.OneRootPerMap | core/src/cell/dict.rs:390-562 | one map has one root cell, hence one root hash |
| DictHistories.HoldsAnswers | core/src/cell/dict.rs:306-359 | the root cell of a map lands every key where the map puts it, and gives the value itself exactly when that entry's summary writes no reference |
| DictHistories.StoreHolds | core/src/cell/dict/plain.rs:142-173 | a store that succeeds leaves the root cell of the updated map |
| DictHistories.RemoveHolds | core/src/cell/dict/plain.rs:182-202 | a removal that succeeds leaves the root cell of the map without the key, and reports membership |
| DictHistories.StoreSucceeds | core/src/cell/dict/plain.rs:142-173 | a store is refused exactly when the updated map has no cells to hold it |
| DictHistories.RemoveSucceeds | core/src/cell/dict/plain.rs:182-202 | a removal is refused exactly when the map without the key has no cells to hold it |
| DictHistories.OutcomeHolds | core/src/cell/dict.rs:390-524 | any history of stores and removals that ran to its end leaves the root cell of the map it means |
| DictHistories.OutcomeSucceeds | core/src/cell/dict.rs:390-524 | a history runs to its end exactly when every map on the way has cells to hold it |
| DictHistories.OrderDoesNotMatter | core/src/cell/dict.rs:390-524 | two histories that mean one map leave the identical cell, whatever their order, replacements and detours |
| DictHistories.HistoryAnswers | core/src/cell/dict.rs:306-359 | after any history every lookup lands as the map it means says, with the value itself exactly when the entry's summary writes no reference |
| DictHistories.RemovalLeavesNoTrace | core/src/cell/dict.rs:499-524 | removing a key leaves the very cell of the history that never wrote it |
| DictBuild.BuildRun | core/src/cell/dict.rs:577-636 | the recursion over a sorted run builds the cells of the tree the run lays out, an empty run refused |
| DictBuild.BuildAll | core/src/cell/dict.rs:542-562 | keys are checked and sorted and the run built; wide keys and short keys are refused first |
| DictBuild.BulkHolds | core/src/cell/dict.rs:542-636 | a bulk build that succeeds leaves the root cell of the map of its items |
| DictBuild.BulkSucceeds | core/src/cell/dict.rs:542-636 | a bulk build is refused exactly when the map of its items has no cells to hold it |
| DictBuild.BulkMatchesWrites | core/src/cell/dict.rs:542-636 | wherever single writes build a map, in any order, the bulk build gives the same cell |
| DictBuild.BulkHoldsMore | core/src/cell/dict/plain.rs:557-592 | two items a bulk build holds and no order of single stores can begin with |
| DictBuild.RerootAt | core/src/cell/dict.rs:651-701 | the loop carves, from any cell, what the recursive reading carves |
| DictBuild.RerootRefines | core/src/cell/dict.rs:651-701 | carving cells is carving the tree |
| DictBuild.TonLabelsShrink | core/src/cell/dict/label.rs:382-421 | the label codec never writes a shortened label longer |
| DictBuild.RerootFits | core/src/cell/dict.rs:651-701 | what is carved out of a tree that fits its cells fits its cells |
| DictBuild.RerootHolds | core/src/cell/dict.rs:651-701 | carving a map's root never fails, gives the root cell of the carved map, and gives none exactly when no key begins with the prefix |
| DictWalk.WalkStep | core/src/cell/dict.rs:714-754 | one step on a stack standing for trees yields their next entry and leaves a stack standing for the rest; on any stack it ends |
| DictWalk.DictIter.Next | core/src/cell/dict/plain.rs:325-340 | entries come one at a time in order; after the end or an error nothing more is yielded |
| DictWalk.ItemsListMap | core/src/cell/dict.rs:714-754 | the entries of a map's tree are the map: every key once, ascending, with its own value |
| DictWalk.WalkAll | core/src/cell/dict.rs:714-754 | walking a map's root to the end lists the map, every key once in order with where its entry opens, and fails nowhere |
| DictWalk.WalkGivesValues | core/src/cell/dict.rs:714-754 | such a walk reads every value, all of them, exactly when no summary in the map writes a reference |
| DictAug.StoredSummary | core/src/cell/dict/aug.rs:89-129 | each visible node of a written tree stores what its leaves combine to along the tree, whether or not summaries carry references |
| DictAug.SummaryFolds | core/src/cell/dict/aug.rs:57-83 | under an associative combine, one that may refuse included, that summary is the leaves' own folded in key order, or both are refused |
| DictAug.FoldsExactlyWhen | core/src/cell/dict/aug.rs:57-83 | every tree's summary is its fold in key order if and only if the combine is associative |
| DictAug.HeldIsCombined | core/src/cell/dict/aug.rs:243-248 | whatever writes, removals or bulk build left it, and whatever the combine, a map's root stores the combine along the one tree the map has |
| DictAug.HeldSummary | core/src/cell/dict/aug.rs:243-248 | whatever writes, removals or bulk build left it, under an associative combine a map's root stores the summaries of the map's entries folded by rising key |
| DictAug.CollectsForks | core/src/cell/dict.rs:783-813 | the fork listing names each visible fork of a written tree once, by its prefix, with its subtree's summary |
| DictAug.ValidateAccepts | core/src/cell/dict.rs:821-875 | the check accepts every tree the writers leave, placeholders and all |
| DictAug.ValidateSound | core/src/cell/dict.rs:821-875 | a visible tree that passes stores exactly what its leaves combine to |
| DictAug.ValidateReachesForks | core/src/cell/dict.rs:836-875 | of any cell that passes, every fork over two visible children stores their combine |
| DictCarried.ForkShowsChildren | core/src/cell/dict.rs:265-280 | a written fork shows its children where the readers look, in its first two references, if and only if its summary writes no reference or writes those very cells |
| DictCarried.BothAreLawful | core/src/cell/dict/aug.rs:57-83 | two augmentations with referencing summaries meet every law of a shape; one refuses to combine such summaries, so that its forks carry none, and one does not |
| DictCarried.EntryOpensOnItsSummary | core/src/cell/dict.rs:232-243 | one entry whose summary writes a reference: stored and looked up, it opens on the summary's reference and not on its value |
| DictCarried.PairIsWritten | core/src/cell/dict.rs:457-496 | two stores under the second augmentation leave the cells of their two-key tree |
| DictCarried.PairIsMisread | core/src/cell/dict.rs:306-359 | in that tree the first key is refused, the second finds the first key's entry, and both the check and the fork listing fail |
| Packing.PackUnpack | core/src/cell/builder.rs:615-630 | bytes spelled out as bits pack back to themselves |
| Packing.PackInjective | core/src/cell/cell/level.rs:36-43 | data bytes and the bit descriptor together settle the bits |
| Packing.ByteBit | core/src/cell/slice.rs:24-27 | shifting a byte gives the bit it was spelled with |
| Hashing.Settles | core/src/cell/cell/hash.rs:185-213 | above a cell's own level every hash and depth is its topmost one |
| Hashing.PlaceholderIdentity | core/src/cell/cell/hash.rs:306-388 | a placeholder is refused exactly when too short for its mask, and otherwise answers what it stores at every level |
| Hashing.LevelIdentity | core/src/cell/cell/hash.rs:306-388 | the slot-filling loop computes the hash and depth of every level the mask calls for |
| Hashing.Summarize | core/src/cell/cell.rs:339-372 | a cell is refused exactly for a mask its children do not imply or a short placeholder, and otherwise has the right identity |
| Representation.DepthIsHeight | core/src/cell/cell/hash.rs:306-388 | where nothing is pruned every level answers the height of the tree, Merkle cells included, up to sixteen bits |
| Representation.DepthIsLongestPath | core/src/cell/cell/hash.rs:306-388 | the depth is the length of the longest path below: one that long exists and none longer does |
| Representation.PrunedDepthIsLongestPath | core/src/cell/usage.rs:132-167 | a pruned tree answers with the longest path of the tree it was pruned from |
| Representation.PlaceholderBytes | core/src/cell/cell/hash.rs:306-388 | a placeholder answers, level by level, the hashes and depths stored at their places, lowest level first, and its own hash from its level up |
| Representation.OpeningBytes | core/src/cell/cell/hash.rs:306-388 | what a level is hashed over opens with references, kind and levels in one byte, the data length in the next, and then the data or the hash below |
| Representation.ReferenceBytes | core/src/cell/cell/hash.rs:306-388 | and goes on with each reference's depth in two bytes, high first, and then each one's hash, all at their places |
| Collisions.LevelZeroCovers | core/src/proof.rs:145-178 | with no collision among what was hashed, a tree hashing at level zero as a full tree shows nothing that is not in it |
| Collisions.FullIsIdentified | core/src/cell/cell.rs:192-206 | among full trees one level-zero hash is one tree |
| Collisions.OwnHashIsIdentity | core/src/cell/cell.rs:374-381 | two well-made cells with one hash at their own level are one cell, placeholders and proofs included |
| Merkle.CoverTrees | core/src/cell/merkle.rs:48-77 | the covering loop writes every hash, every depth, every tree and the lowered mask, and refuses what it must not cover |
| Merkle.VerifyIsAnchoredVirtualize | core/src/cell/merkle/virtualize.rs:39-73 | checking a proof against a root is reading through it and the content having that root |
| Merkle.ProofVerifies | core/src/cell/merkle/proof.rs:31-33 | a proof can be built over a well-made tree exactly when it is ordinary, and is then well made and accepted against its root, giving the tree back |
| Merkle.ProofIsALevelLower | core/src/cell/merkle/proof.rs:31-33 | a proof stands one level lower than the tree it covers, each of its levels being the one above there |
| Merkle.AcceptedProofStates | core/src/cell/merkle/virtualize.rs:39-73 | an accepted proof stores the hash it was accepted for and the depth of the tree it gives back |
| Merkle.UpdateNamesNewTree | core/src/tlb/block.rs:211-229 | an update names its new tree's hash exactly where a block's reader looks for it |
| Usage.StandsFor | core/src/cell/usage.rs:160-167 | a placeholder keeps the level-zero hash and depth of what it stands for |
| Usage.Rebuild | core/src/cell/usage.rs:132-153 | the builder recursion is the pruning of the tree, errors included |
| Usage.PruneSucceeds | core/src/cell/usage.rs:132-153 | pruning succeeds exactly when no exotic cell would be kept |
| Usage.PruneKeepsRoot | core/src/cell/usage.rs:132-167 | pruning keeps level-zero hash and depth at every node, leaves a well-made tree, and leaves a placeholder exactly for an unmarked cell |
| Usage.PrunedIsLevelOne | core/src/cell/usage.rs:132-167 | pruning a whole tree raises it one level and no more |
| Usage.ProofStandsAlone | core/src/cell/usage.rs:132-167 | a proof out of a whole tree stands at level zero |
| Usage.MarkedIsReachable | core/src/cell/usage.rs:132-153 | a cell reached through marked cells is reached the same way after pruning, with its bits and hash |
| Usage.UnmarkedIsHidden | core/src/cell/usage.rs:132-167 | the first unmarked cell of a path is its placeholder after pruning |
| Usage.MarkPathTo | core/src/cell/usage.rs:172-184 | a target is found exactly when it occurs, the marks then hold a whole path to it, and they are untouched when it does not occur |
| Usage.UsageTree.constructor | core/src/cell/usage.rs:63-71 | a usage tree starts with the root marked |
| Usage.UsageTree.Mark | core/src/cell/usage.rs:80-82 | marking adds the cell's hash and nothing else |
| Usage.UsageTree.MarkPath | core/src/cell/usage.rs:96-99 | marks only grow, and a found cell has its whole path marked |
| Usage.UsageTree.Prune | core/src/cell/usage.rs:112-114 | the skeleton of the marked cells |
| Usage.UsageTree.Prove | core/src/cell/usage.rs:126-128 | a proof exists exactly when nothing exotic is marked, and verifies against the whole tree's root, showing the skeleton |
| Usage.ProofShowsTarget | core/src/cell/usage.rs:96-184 | end to end: what was marked with its path is readable, bit for bit, in the verified proof |
| Reads.FindShard | core/src/tlb/shard.rs:314-343 | the loop reads a shard tree as the recursion does, for any cell at all, which on a tree laid out is ShardOfAccount |
| Reads.ProvedLookup | core/src/cell/dict.rs:306-359 | a lookup through a proof is withheld or is the full dictionary's own answer |
| Reads.ProvedShard | core/src/tlb/shard.rs:314-343 | a shard read through a proof is withheld or is the full tree's record |
| Reads.ProvedAccount | core/src/tlb/shard.rs:131-173 | an account read through a proof is withheld or is what the full state says |
| Reads.ProvedRecord | core/src/tlb/shard.rs:289-310 | a shard record read off a proved masterchain state is the recorded one unless withheld |
| Reads.ProvedStateHash | core/src/tlb/block.rs:211-229 | the state hash a proved block names is the full block's |
| Verified.RootedAt | core/src/proof.rs:209-219 | the search finds the first proof root whose content has the expected hash |
| Verified.FirstClaimIsRead | core/src/proof.rs:209-219 | among any roots the first proof claiming the hash is the one read, whatever else comes before it |
| Verified.TaggedIsOrdinary | core/src/tlb/block.rs:78-84 | no exotic cell carries a block's or a state's tag |
| Verified.ProvedStateCovers | core/src/proof.rs:196-243 | an accepted block and state proof cover the true block and the state it leaves |
| Verified.ShardBlockIsRecorded | core/src/proof.rs:258-280 | a derived shard block is the one the trusted masterchain state records |
| Verified.BoundIsTrue | core/src/proof.rs:298-356 | an account bound to a proved entry is the state's account, cell for cell |
| Verified.StateReadIsTrue | core/src/proof.rs:298-356 | an accepted read says what the state of its block says, presence and absence alike |
| Verified.AccountReadIsTrue | core/src/proof.rs:298-356 | an accepted read, whatever the server sent, is the truth of the state the trusted masterchain block leads to, and says nonexistent exactly when nothing was sent |
| Verified.ParsedIsReadable | core/src/proof.rs:298-356 | every proof that parses out of bytes meets what the read theorem asks, so nothing is asked of the server |
| Verified.HonestReadPasses | core/src/proof.rs:298-356 | the other direction: honest proofs of a masterchain block and its state, whole or cut down, are accepted with the state's own verdict |
| Verified.HonestShardReadPasses | core/src/proof.rs:258-356 | the same for a shard: honest proofs through the masterchain state that records its block are accepted |
| Layouts.ShardReadsBack | core/src/tlb/shard.rs:237-250 | a shard record laid out field by field reads back as its number and root hash |
| Layouts.AccountReadsBack | core/src/tlb/shard.rs:131-173 | an account entry laid out with its balance summary reads back as its cell, hash and time |
| Layouts.StateReadsBack | core/src/tlb/shard.rs:184-220 | a state's tag and its custom flag read back past every field between |
| Layouts.IdentReadsBack | core/src/tlb/block.rs:238-256 | a shard identifier reads back as its workchain and shard number |
| Layouts.HeaderReadsBack | core/src/tlb/block.rs:94-135 | a block header reads back as the five facts a chain uses |
| Layouts.ShardIsPrefixAndMark | core/src/tlb/block.rs:238-256 | a shard number is its prefix's declared bits, one mark, and zeros |
| Layouts.ValidatorReadsBack | core/src/proof/validators.rs:309-328 | both validator layouts read back as key and weight |
| Layouts.SetReadsBack | core/src/proof/validators.rs:180-253 | both set layouts read back as the signing count and the list |
| Layouts.ExtraReadsBack | core/src/tlb/block.rs:149-194 | a block's extra reads back as its custom cell |
| Layouts.CurrencyReadsBack | core/src/tlb/block.rs:259-263 | skipping an amount and its other currencies lands exactly past them |
| Layouts.ConfigReadsBack | core/src/tlb/block.rs:149-194 | a key block's custom cell reads back as its configuration |
| Records.TagExactly | core/src/tlb/block.rs:78-84 | a cell opens with a tag exactly when its first bits spell it |
| Records.ShardExactly | core/src/tlb/shard.rs:237-250 | a shard record is accepted exactly by its length and tag, and its number and hash are the bits at their places |
| Records.ValidatorExactly | core/src/proof/validators.rs:309-328 | a validator is accepted exactly by its length and two tags, and its key and weight are the bits at their places |
| Records.HeaderExactly | core/src/tlb/block.rs:94-135 | a header is accepted exactly by its length, tag and shard prefix, and its five facts are the bits at their places |
| Records.SetExactly | core/src/proof/validators.rs:180-253 | a set is accepted exactly by its tag, with at least one signing and no more than there are, and its list present |
| Records.HasExtraExactly | core/src/tlb/shard.rs:184-220 | a state says whether it has an extra at one bit, and is refused exactly when short or its shard does not read |
| Records.ConfigIsTagged | core/src/tlb/block.rs:149-194 | a configuration is read only out of a tagged extra and a tagged key block's custom cell |
| States.ShardOfAccount | core/src/tlb/shard.rs:314-343 | of a shard tree laid out, the walk gives the record of the shard whose prefix the address begins with, and refuses one split past the limit |
| States.OneShardEach | core/src/tlb/shard.rs:314-343 | every address is under exactly one shard of a tree |
| States.WorkchainKeyReads | core/src/tlb/shard.rs:289-310 | a workchain's key is its number in two's complement, negative ones included |
| States.StateRecordsItsShards | core/src/tlb/shard.rs:184-310 | a masterchain state laid out with a shard tree under a workchain records, for any account, the shard its address falls under |
| States.StateRecordsNoOther | core/src/tlb/shard.rs:184-310 | it records none for a workchain it does not list, or where there is no extra |
| States.PlainReadsSummarized | core/src/tlb/shard.rs:131-173 | a summarized dictionary read as a plain one gives the same entries, each opening on its summary |
| States.StateAnswersItsAccounts | core/src/tlb/shard.rs:115-173 | a state laid out with an accounts dictionary answers for an address as the dictionary says under the whole of it |
| States.BlockCellReads | core/src/tlb/block.rs:78-229 | a block laid out reads as a block, by its header, leaving the state its update leads to |
| KeyBlocks.EntryReads | core/src/cell/dict.rs:306-359 | reading an entry of a dictionary meets exactly what its map holds, value or absence |
| KeyBlocks.MembersReadBack | core/src/proof/validators.rs:180-253 | validators listed under the first indices of a dictionary read back in order |
| KeyBlocks.SetIsListed | core/src/proof/validators.rs:180-253 | a set's cell reads as the set of exactly the validators its list holds |
| KeyBlocks.ConfigNamesSet | core/src/proof/validators.rs:148-169 | the temporary set is the one in force where there is one, the elected one otherwise |
| KeyBlocks.KeyBlockReadsBack | core/src/tlb/block.rs:149-194 | a key block laid out part by part reads back as its configuration |
| KeyBlocks.BlockNamesItsValidators | core/src/proof/validators.rs:148-253 | from the validators up: a block whose configuration lists these validators names the built set of exactly them |
| Validators.BuildSet | core/src/proof/validators.rs:180-253 | a list is refused exactly when it repeats an id, and otherwise becomes an ordered permutation of itself |
| Validators.Search | core/src/proof/chain.rs:210-249 | binary search finds an id or the one place it may be inserted |
| Validators.Find | core/src/proof/validators.rs:261-267 | a member is found exactly when the set has one of that id |
| Validators.QuorumsIntersect | core/src/proof/validators.rs:286-288 | two groups that each weigh more than two thirds of a set share more than a third of its weight |
| Validators.CarriedWeight | core/src/proof/chain.rs:210-249 | the loop never overflows, counts only valid distinct signers, accepts only what was signed, and decides as the full tally whenever its budget lasts |
| Validators.TallyDecides | core/src/proof/chain.rs:210-249 | of any list, the early-exit tally passes two thirds exactly when the distinct valid signers among the entries its budget reaches weigh more than two thirds |
| Validators.TallyIsSigned | core/src/proof/chain.rs:210-249 | what the tally took past two thirds was signed past two thirds, whatever padded the list |
| Validators.MissingDecide | core/src/proof/validators.rs:286-288 | more than two thirds signed exactly when those who did not weigh less than a third |
| Validators.TallyLives | core/src/proof/chain.rs:210-249 | a list naming each member at most twice is accepted exactly when the members that did not sign weigh less than a third |
| Validators.UnexhaustedIsReached | core/src/proof/chain.rs:210-249 | a list naming members no more than twice their number is reached to its end |
| Validators.NamedTwiceFits | core/src/proof/chain.rs:210-249 | a list naming each member at most twice, among any number of strangers, is never cut short |
| Validators.OrderDoesNotMatter | core/src/proof/chain.rs:210-249 | neither order nor repetition changes what was signed |
| Validators.PaddingStarvesATally | core/src/proof/chain.rs:210-249 | of every set and every list: behind twice as many failing entries as there are members, all naming one of them, nothing is counted, though no less is signed |
| BlockReads.OneValidatorStarved | core/src/proof/chain.rs:210-249 | a one-validator set as the configuration reader assembles it, and a list it signed that is cut before the signature |
| BlockReads.ReadSet | core/src/proof/validators.rs:180-253 | the member loop reads the set a cell describes, checking count, weights and order |
| BlockReads.ReadSetsAreBuilt | core/src/proof/validators.rs:148-253 | every set read out of a configuration has a member and is ordered, without repeats and weighed from its members |
| BlockReads.ProvedHeader | core/src/tlb/block.rs:94-135 | the header a proof shows is the full block's |
| BlockReads.ProvedConfig | core/src/tlb/block.rs:149-194 | the configuration a proof shows is covered by the full block's |
| BlockReads.ProvedSet | core/src/proof/validators.rs:148-169 | the set a proof shows is the full configuration's, a pruned temporary set never read as none |
| Chain.CastsAreInverse | core/src/lite/types.rs:155-186 | wire and client block ids convert both ways without loss |
| Chain.VerifyLink | core/src/proof/chain.rs:92-162 | a link is accepted exactly when its ids, proofs, heights, flags and signatures meet every check, and then names the destination |
| Chain.LinkMeans | core/src/proof/chain.rs:92-195 | an accepted link: more than two thirds of the set the true source block names signed for exactly the destination, whose true header has the height and kind claimed and is the masterchain's |
| Chain.MessagesDiffer | core/src/proof/chain.rs:164-195 | two accepted links from one block to different blocks were signed as different messages |
| Chain.ForkIsAccountable | core/src/proof/chain.rs:92-249 | two accepted links from one true block to different blocks: more than a third of the weight that block names validly signed both of two different messages |
| Chain.HonestLinkDecides | core/src/proof/chain.rs:92-195 | a link honestly proved is accepted exactly when it is true of its two blocks: heights, header, and the carried set of the source |
| Chain.QuorumPasses | core/src/proof/chain.rs:92-249 | an honest link to a true higher block, naming each member at most twice, is accepted exactly when the members that did not sign weigh less than a third |
| Chain.VerifyChain | core/src/proof/chain.rs:58-89 | a chain is accepted exactly when it is contiguous from the anchor to its stated end with every link accepted |
| Chain.ChainsJoin | core/src/proof/chain.rs:58-89 | two chains that meet are one chain |
| Chain.ChainMeans | core/src/proof/chain.rs:58-195 | every link of an accepted chain speaks of the true blocks at its two ends |
| Chain.HonestChainPasses | core/src/proof/chain.rs:58-89 | a row of true blocks, each signed for by the set of the one before, is accepted end to end |
| Chain.RisesSigned | core/src/proof/chain.rs:92-162 | signed heights rise strictly between any two places of an accepted chain |
| Chain.RisesUnsigned | core/src/client/sync.rs:176-184 | a chain whose ends rise unsigned rises unsigned at every step, though links are compared signed |
| Sync.WithinBounds | core/src/client/sync.rs:73-114 | a reply is refused before any check exactly when some part exceeds its bound |
| Sync.Walk.Round | core/src/client/sync.rs:121-155 | a round is counted even when refused, and refused exactly past a bound |
| Sync.FreshEnough | core/src/client/sync.rs:192-220 | a head passes exactly when it is neither too old nor stamped past the allowed skew |
| Sync.WorthContinuing | core/src/client/sync.rs:232-246 | a walk goes on exactly while it has run no longer than a head may be old, or there is no bound |
| Sync.LastKeyBlock | core/src/client.rs:429-438 | the backward search finds the final key block among the steps |
| Sync.KeyBlockPlace | core/src/client.rs:429-438 | that block is a step's destination with no key block after it |
| Sync.TrustedHeight | core/src/client.rs:174-256 | what a proven run lets be trusted is its start or a key block on it, never lower than the start |
| Sync.RunGrows | core/src/client.rs:174-256 | a checked reply whose end is higher extends a proven run |
| Sync.Advance | core/src/client.rs:174-256 | one accepted round keeps the run proven and moves trust to the reply's last key block or leaves it |
| Sync.Ask | core/src/client.rs:174-256 | a request is made exactly when it is in time, and its answer accepted exactly when in bounds, a checked chain on and strictly higher |
| Sync.Client.Sync | core/src/client.rs:174-256 | against any server: at most one request past the round bound, and none once the walk has outlasted the age bound; every error leaves the anchor alone; success, exactly when the answers lead to a fresh proof of the named head, is a proven rising run to it with the anchor on its last key block |
| Sync.HonestServerFinishes | core/src/client.rs:174-256 | however an honest server cuts a chain to its head at key blocks, within the bounds, its answers meet that condition |
| Sync.TrueBlocksServe | core/src/client/sync.rs:73-114 | a row of true blocks, honestly proved, is servable exactly when it and its proofs and signature lists are within the bounds and it ends higher |
| Sync.SyncMany | core/src/client.rs:174-256 | over any sequence of syncs with any servers the height trust rests at never falls, an anchor gained from the init block included |
| EndToEnd.HeadIsMasterchain | core/src/client.rs:383-388 | a synced head is a masterchain block, so the guard of a read there never refuses it |
| EndToEnd.OnlyAtMasterchain | core/src/client.rs:383-388 | a read at a block that is not the masterchain's is never accepted |
| EndToEnd.SyncedChainMeans | core/src/client.rs:174-256 | along a synced run each true block's own set signed for the next, and the true head's own header is as named and fresh |
| EndToEnd.ReadAtHeadIsTrue | core/src/client.rs:372-414 | a read accepted at the head of a synced run rests on signatures all along the true chain and says what the state that head leads to says |
| EndToEnd.ReadAccount | core/src/client.rs:290-293 | sync then read: it succeeds exactly when both do, a failed sync leaves the anchor alone, and for whatever blocks and states the network truly holds the verdict is the truth under a fresh signed head |
| Topology.EmitKeeps | core/src/cell/boc/serialize.rs:35-76 | emitting a cell keeps the walk's invariant |
| Topology.SkipKeeps | core/src/cell/boc/serialize.rs:35-76 | passing over a cell already met keeps it |
| Topology.VisitKeeps | core/src/cell/boc/serialize.rs:35-76 | meeting a new cell keeps it |
| Topology.OrderIsTopological | core/src/cell/boc/serialize.rs:35-76 | the order holds every reachable cell exactly once, each before all its children |
| Topology.HashesKeepApart | core/src/cell/boc/serialize.rs:35-85 | with no collision among what was hashed, marking by hash is marking by cell |
| Topology.OrderCells | core/src/cell/boc/serialize.rs:35-76 | the stack loop ends and gives that order |
| PostOrder.OrderIsPostOrder | core/src/cell/boc/serialize.rs:29-76 | that order is the recursive depth-first post-order from the roots, first reference first, turned around |
| BocBytes.Crc32cUpdate | core/src/cell/boc.rs:148-165 | the byte and bit loops compute the checksum fold |
| Castagnoli.ChecksumIsRemainder | core/src/cell/boc.rs:147-165 | the running checksum over any bytes is the remainder of the message by the Castagnoli polynomial, by long division |
| Castagnoli.TailIsComplement | core/src/cell/boc.rs:163-165 | it is stored complemented, lowest byte first |
| BocBytes.CrcJoins | core/src/cell/boc.rs:148-165 | a checksum carried from piece to piece is that of the whole |
| BocBytes.ReadsLowBytes | core/src/cell/boc/serialize.rs:24-27 | a number written in a width reads back as its low bytes, whatever its size |
| BocBytes.WidthWithin | core/src/cell/boc/serialize.rs:15-18 | the chosen width is the least that holds the number |
| BocWrite.PositionsOfMembers | core/src/cell/boc/serialize.rs:79-85 | every root and reference is found, at its own place in the order |
| BocWrite.LinksOfOrder | core/src/cell/boc/serialize.rs:79-85 | every reference of every ordered cell resolves |
| BocWrite.OffsetsEnd | core/src/cell/boc/large.rs:45-126 | offsets sized in a separate pass are where the written cells end |
| BocWrite.MakePlan | core/src/cell/boc/serialize.rs:190-272 | order, links and root positions, refusing no roots and too many cells |
| BocWrite.SerializeBocWith | core/src/cell/boc/serialize.rs:190-272 | the one-buffer writer gives the bag of its graph under every option |
| BocWrite.BocChunks.constructor | core/src/cell/boc/large.rs:45-126 | what a stream has yet to give is the whole sealed bag |
| BocWrite.BocChunks.Next | core/src/cell/boc/large.rs:151-204 | each chunk is non-empty and comes next in the bag; the end comes exactly when the bag is out |
| BocWrite.BocChunks.TakeCells | core/src/cell/boc/large.rs:151-204 | whole cells up to the target size, at least one, with checksum carried along |
| BocWrite.CollectChunks | core/src/cell/boc/large.rs:151-204 | the chunks put together are the one-buffer bag byte for byte, for every graph and option |
| BocRead.Reader.TakeBytes | core/src/cell/boc.rs:168-199 | bytes are taken off the front or the reader refuses |
| BocRead.Reader.Uint | core/src/cell/boc.rs:168-199 | a big-endian number is taken off the front or the reader refuses |
| BocRead.Reader.Roots | core/src/cell/boc/header.rs:18-154 | the root list is read with each entry held under the cell count |
| BocRead.ReadHeaderFrom | core/src/cell/boc/header.rs:18-154 | the header loop reads or refuses as the field-by-field reading does, and stops where the cells begin |
| BocRead.ReadIsForward | core/src/cell/boc/parse.rs:116-184 | every reference read points strictly forward and inside the bag |
| BocRead.ByHeightIsChildrenFirst | core/src/cell/boc/parse.rs:233-317 | building by rising height builds children first, whatever the order within a height |
| BocRead.BuildPlanned | core/src/cell/boc/parse.rs:597-628 | under any children-first plan the same cells are built and the same lowest refusal is reported |
| BocExact.HeaderSpells | core/src/cell/boc/header.rs:18-154 | an accepted header is spelled byte for byte by what was read out of it, within every bound, with exactly the announced cells behind it and a true checksum |
| BocExact.ReadCellSpells | core/src/cell/boc/parse.rs:116-184 | an accepted record is spelled byte for byte by the cell read out of it, its data completed in the one way |
| BocExact.KindsHaveTheirReferences | core/src/cell/boc/parse.rs:886-948 | an accepted exotic record has exactly the references its kind has |
| BocExact.CarriedHashesAreOwn | core/src/cell/boc/parse.rs:956-983 | hashes a record carries are believed only where they are the cell's own |
| BocExact.IndexFindsCells | core/src/cell/boc/serialize.rs:194-270 | each entry of a written index is where its cell ends in the area, and the bytes up to there are its record |
| BocRoundTrip.DataReadsBack | core/src/cell/boc.rs:209-230 | descriptor and data bytes give a cell's bits back |
| BocRoundTrip.RecordReadsBack | core/src/cell/boc/parse.rs:116-184 | a cell's record reads back, with or without stored hashes, whatever follows |
| BocRoundTrip.CellsReadBack | core/src/cell/boc/parse.rs:116-184 | a bag's body reads back as its records |
| BocRoundTrip.GraphReadsBack | core/src/cell/boc/parse.rs:505-628 | building those records gives the roots back unless some cell is deeper than a reader builds |
| BocRoundTrip.HeaderDecides | core/src/cell/boc/header.rs:18-154 | a bag's header reads back with the root count cut to a position's width |
| BocRoundTrip.ListsReadBack | core/src/cell/boc/header.rs:18-154 | with a root count that fits, count, roots, flags, area and body all read back |
| BocRoundTrip.FittingBagReads | core/src/cell/boc/parse.rs:104-108 | a bag whose root count fits parses to its roots, or is refused as too deep |
| BocRoundTrip.CrowdedBagDoesNot | core/src/cell/boc/serialize.rs:190-272 | a bag whose root count does not fit never parses to its roots |
| BocRoundTrip.BagReadsBack | core/src/cell/boc/serialize.rs:190-272 | a bag parses back to its roots exactly when its root count fits and no tree is too deep |
| BocRoundTrip.SerializesWithin | core/src/cell/boc/serialize.rs:190-272 | a graph serializes exactly when it has a root and no more cells than a bag may hold |
| BocRoundTrip.RootlessBagIsRefused | core/src/cell/boc/header.rs:18-154 | a root count that is a multiple of what its width holds reads as none and is refused |
| BocRoundTrip.ManyRootsOfOneCell | core/src/cell/boc/serialize.rs:190-272 | two hundred and fifty-six roots naming one cell serialize, and the bag is refused as having no roots |
| BocRoundTrip.ParsedIsSound | core/src/cell/boc/parse.rs:886-983 | whatever bytes are parsed, every cell given is well made all the way down |
| Adnl.SessionCiphers.Seal | core/src/adnl/frame.rs:108-128 | an oversized payload is refused with the keystream unmoved; any other is sealed at the counter, which moves by the frame |
| Adnl.SessionCiphers.OpenLength | core/src/adnl/frame.rs:141-148 | a length prefix is opened at the counter and refused outside its bounds |
| Adnl.SessionCiphers.OpenPayload | core/src/adnl/frame.rs:161-177 | a body is opened and refused on a checksum that does not match |
| Adnl.SealedOpens | core/src/adnl/frame.rs:108-177 | a sealed frame opens as its payload at the same counter, whatever follows |
| Adnl.CutNeedsMore | core/src/adnl/frame.rs:141-177 | a frame cut at any byte is waited on, never misread |
| Adnl.StreamOpens | core/src/adnl/frame.rs:108-177 | whole frames and then a cut one open as exactly the whole ones, in order |
| Adnl.AdnlConnection.Send | core/src/adnl/connection.rs:177-187 | a send cut anywhere leaves the flag down; one refused for size moves nothing |
| Adnl.AdnlConnection.Recv | core/src/adnl/connection.rs:190-204 | the flag is up again only after a whole frame whose checksum matched |
| Adnl.AdnlConnection.Query | core/src/adnl/connection.rs:141-174 | the first frame answering this id is returned and no other, at most the bound is read, each failure is the one the frames read call for, and a broken connection moves nothing |
| Adnl.RecvOpensNext | core/src/adnl/connection.rs:190-204 | a receive that succeeds is the opening of the next frame where the client stands |
| Adnl.RefusalBreaks | core/src/adnl/connection.rs:190-212 | any receive that fails leaves the connection refusing to go on |
| Adnl.ServerReadsWhatWasSent | core/src/adnl/connection.rs:177-212 | over any run with cancellation at any byte a peer reads exactly the sends that succeeded, in order, and the one given up on exactly if its last byte was out |
| Adnl.CountersMatch | core/src/adnl/connection.rs:177-212 | whatever the peer sends, while the flag is up both cipher counters equal the bytes moved |
| Adnl.ClientReceivesInOrder | core/src/adnl/connection.rs:190-212 | over any run the client receives a prefix of what an honest peer sealed, in order and unaltered |
| Adnl.UncutRunReceives | core/src/adnl/connection.rs:190-204 | uninterrupted, every receive a frame was sealed for takes it and the connection holds |
| Adnl.AnswerIsFound | core/src/adnl/connection.rs:141-174 | an answer sealed within the frames a query reads is found, whatever comes before it, and it is the first |
| Adnl.UnansweredQuery | core/src/adnl/connection.rs:141-174 | a query that reads its eight frames without an answer says so, and says it understood nothing exactly when it understood none |
| Adnl.QueriesAreARun | core/src/adnl/connection.rs:141-174 | any sequence of queries is a run of sends and receives, whose sent messages are the queries while the flag is up |
| Adnl.QueriesStayInStep | core/src/adnl/connection.rs:141-212 | so over any queries that leave the flag up, counters match the bytes moved and the server reads exactly the queries, in order |
| Adnl.BrokenStaysBroken | core/src/adnl/connection.rs:206-212 | once the flag is down no later operation sends, reads or repairs anything |
| Builders.MarkCompletes | core/src/cell/builder.rs:615-630 | marking where the bits end turns the builder's bytes into a cell's data |
| Builders.BytesCut | core/src/cell/builder.rs:436-451 | clearing a cut byte leaves the bytes the kept bits would have been stored as |
| Builders.BitAtReads | core/src/cell/slice.rs:24-27 | the bit read out of packed bytes is the bit stored |
| Builders.Builder.StoreBit | core/src/cell/builder.rs:109-122 | a bit is appended, or refused with nothing changed exactly when full |
| Builders.Builder.StoreNumber | core/src/cell/builder.rs:245-263 | a number's bits are appended highest first, or refused with nothing changed exactly when it or its width does not fit |
| Builders.Builder.StoreUint | core/src/cell/builder.rs:133-151 | the same within sixty-four bits |
| Builders.Builder.StoreInt | core/src/cell/builder.rs:166-195 | two's complement, refused exactly outside the width's range or the room left |
| Builders.Builder.StoreVarUint | core/src/cell/builder.rs:329-355 | length and value are stored together or not at all |
| Builders.Builder.StoreVarInt | core/src/cell/builder.rs:369-389 | the same for a signed value in its least byte count |
| Builders.Builder.StoreBits | core/src/cell/builder.rs:418-425 | a run is stored whole or not at all |
| Builders.Builder.StoreRef | core/src/cell/builder.rs:494-500 | a reference is appended, or refused exactly when full |
| Builders.Builder.TruncateBits | core/src/cell/builder.rs:436-451 | the builder is back exactly where it was at the earlier count |
| Builders.Builder.Finish | core/src/cell/builder.rs:601-630 | the cell and data bytes of the held bits and references |
| Builders.SignReadsBack | core/src/cell/slice.rs:30-43 | extending the sign of a stored value gives the value |
| Builders.VarUintIsMinimal | core/src/cell/builder.rs:329-355 | no fewer bytes hold the value |
| Builders.SignedByteLenIsLeast | core/src/cell/builder.rs:638-651 | a byte count holds a signed value exactly when it is at least the chosen one |
| Builders.VarUintReadsBack | core/src/cell/slice.rs:306-337 | a stored variable integer reads back, leaving what follows |
| Builders.VarIntReadsBack | core/src/cell/slice.rs:295-337 | a stored signed variable integer reads back, leaving what follows |
| Builders.UintReadsBack | core/src/cell/slice.rs:164-178 | a stored number reads back, leaving what follows |
| Builders.IntReadsBack | core/src/cell/slice.rs:456-472 | a stored signed number reads back, leaving what follows |
| Builders.Slice.LoadBit | core/src/cell/slice.rs:153-156 | the next bit, or nothing moved |
| Builders.Slice.LoadNumber | core/src/cell/slice.rs:235-249 | the next bits as a number, or nothing moved |
| Builders.Slice.LoadBits | core/src/cell/slice.rs:349-357 | the next bits as stored, or nothing moved |
| Builders.Slice.ReadVar | core/src/cell/slice.rs:306-337 | succeeds exactly when a length and all its value bits are ahead, and otherwise moves nothing |
| Builders.Slice.LoadVarUint | core/src/cell/slice.rs:275-277 | the variable integer ahead, or nothing moved |
| Builders.Slice.LoadVarInt | core/src/cell/slice.rs:295-298 | the signed variable integer ahead, or nothing moved |
| Builders.Slice.LoadInt | core/src/cell/slice.rs:456-472 | the next bits as a signed number, or nothing moved |
| Builders.Slice.LoadSlice | core/src/cell/slice.rs:585-634 | a cursor over exactly the part taken, and this one past it |
| Builders.Slice.LoadRef | core/src/cell/slice.rs:406-417 | the next reference, or nothing moved |
| Builders.StoreAll | core/src/cell/builder.rs:109-500 | a row of fields is refused exactly when one has no spelling or there is no room, and otherwise is all appended |
| Builders.LoadAll | core/src/cell/slice.rs:153-472 | loads of the same kinds and widths give the fields back |
| Builders.StoreThenLoad | core/src/cell/builder.rs:109-630 | whatever fields go in behind whatever was held, a slice of the finished cell loads those fields, at any offset |
| Base64.EncodeText | core/src/cell/codec.rs:69-95 | the loop writes the encoding of section 4 of RFC 4648 |
| Base64.DecodeText | core/src/cell/codec.rs:118-174 | the loop decodes or refuses as the definition does |
| Base64.DecodesEncoded | core/src/cell/codec.rs:69-174 | encoding then decoding gives the bytes back |
| Base64.OneSpelling | core/src/cell/codec.rs:118-174 | an accepted text is the encoding of what it decodes to |
| Base64.DecodeByCharacter | core/src/codec.rs:55-99 | the accumulator decoder accepts exactly the texts the strict one accepts in the standard alphabet, with equal bytes |

## Left out

- Minimum, maximum, floor, ceiling, retain, merge and steered traversal of dictionaries: each is a walk or a sequence of the modelled writes.
- Prefix dictionaries and typed dictionary accessors.
- Decoding an account's contents after its cell has been bound to the state.
- Header fields the chain does not use: validator list hash, catchain number, previous key block.
- TL serialization: messages, signed bytes and block ids are values here, and a signature check takes the message as a value.
- The parallel build of a bag: waves, workers and the counting sort are one method that follows any children-first order, and every such order is proved to give the same result.
- LazyBoc, BocView, the verify-only pass and LZ4 compression.
- Creating and applying Merkle updates, beyond where an update names its new tree.
- Cell comparison by hash inside the dictionary check: cells are compared as values there; `Collisions.OwnHashIsIdentity` is why the two agree.
- Error texts and payloads: the source's errors are one enumeration, told apart only where a caller can act on them.
- The ADNL handshake, TCP, timeouts, random query ids and server selection.
- Switching usage tracing on and off; the marks are given by the caller.
- 32-bit platforms: sizes are 64-bit or unbounded where the source uses machine words, except where a width is written out.
- Connecting, starting from a given anchor, and the Node binding.
- Hex and CRC-16 text codecs, configuration files, formatting.
- Constants of the formats, such as the prefix a validator's key is hashed under and the size limits: they are the source's own and nothing here derives them.
- DictAug.HeldSummary: asks the combine to be associative, which the source does not; DictAug.HeldIsCombined is what holds of every combine.
- DictAug.SummaryFolds: asks the combine to be associative; DictAug.FoldsExactlyWhen proves that nothing weaker will do.
- Per-request deadlines: a request that times out is a reply that failed; the walk's own time limit is modelled, with the elapsed time a parameter.
