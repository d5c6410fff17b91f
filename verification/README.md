# Verified model of the custom Redis server

A Dafny model of the server's own data structures and protocols, with proofs of what they promise. `dafny verify
dfyconfig.toml` checks all of it.

| Part of the server | Modules | Main results |
|---|---|---|
| AVL tree with parent pointers and cached sizes | `AvlShape`, `AvlTree`, `ZTree` | `AvlTree.AvlDel`, `ZTree.TreeInsert`, `ZTree.Offset` |
| Sorted set: tree and hash map over the same members | `ZOrder`, `ZSet`, `ZQuery` | `ZSet.Replay`, `ZQuery.RangeQuery` |
| Hash map with incremental rehash | `HashTable`, `HashMap`, `HashRun` | `HashRun.Replay`, `HashMap.MigrationEnds` |
| HyperLogLog | `HllDense`, `HllFlags`, `HllSparse`, `HllConvert`, `HllEstimate`, `HllCache`, `HllHash`, `Hll`, `HllRun` | `HllRun.Replay`, `HllRun.RunBoth`, `HllSparse.AddRun`, `HllRun.SameHashesSameRegisters` |
| HyperLogLog as the code is written | `HllMerge`, `HllLiteral`, `HllLiteralRun`, `HllSpill`, `HllBits` | `HllLiteral.AddAsWritten`, `HllLiteralRun.Replay`, `HllSpill.LiteralMergeExact` |
| TTL heap and expiry | `Heap`, `Ttl` | `Heap.HeapFix`, `Ttl.Replay`, `Ttl.Deadlines.Expire` |
| Thread pool | `ThreadPool` | `ThreadPool.Safety`, `ThreadPool.QuietRunFinishes` |
| Request framing | `Framing` | `Framing.ChunkIndependent`, `Framing.Serve` |
| Lists and the idle ring | `Dlist`, `ListDeque`, `IdleRing` | `ListDeque.Replay`, `IdleRing.Replay` |

`Bytes`, `Seqs` and `Wrappers` hold what several modules share.

## How the model is built

- Pointer structures are classes whose fields the methods change as the C++ does. What they stand for is a value next
  to them: a tree with a one-hole context for the AVL tree, a `Layout` for a bucket array, a sequence of nodes for a list
  or ring, a `Flag` list for sparse HyperLogLog bytes.
- A node embedded in a larger struct is an object; `container_of` is a field access. Clocks, hashes, the logarithm and
  the eight bytes of a double are parameters. Scores are real numbers, so there is no NaN and no rounding.
- Keys of the hash map are identified as `ht_lookup` does it: by hash code and by the bytes before the first NUL. On
  NUL-free keys that is equality (`ZSet.IdInjective`).
- A predicate written `var all := …; all` is a plain conjunction. The variable keeps the verifier from proving a contract
  that mentions it conjunct by conjunct, which is many times as costly.

## Where the code departs from its intent

Each place below is modelled as written, with the exact condition under which it does what it is for. What holds only for
the intended step is marked "as intended" in the table.

- `heap.cpp:45-48` takes the left child in both branches. `Heap.Descent` chooses between `AsWritten` and `IntoSmaller`;
  `Heap.HeapDown` says exactly when the code as written restores the order, `Ttl.Deadlines.Expire` and `Ttl.Replay` when
  a pass and a whole run keep it. `Ttl.PassFails` is a pass that leaves an expired deadline.
- `hashmap.cpp:69-82, 103` tears down a ZSET or HSET value while its node is only being moved. `HashRun.Replay` says over
  every run which nodes of the map have lost their values; `HashMap.MigrationDestroys` is a case that loses all of them.
- `hyperloglog.cpp:84-91` reads signed characters without a mask (`HllDense.LiteralReadExact`, `HllSpill.LiteralReadIs`).
  Exact conditions for what is built on that read: `Hll.AddDenseAsWritten`, `HllEstimate.DenseSumAsWritten`,
  `HllEstimate.DenseZerosAsWritten`, and, with values above 63 that run over into the next register,
  `HllSpill.LiteralMergeExact` and `HllSpill.LiteralMergeReads`. `Hll.MergeDenseAsWritten` says what becomes of the cache.
- `hyperloglog.cpp:138` calls `iszero` where `is_zero` is meant: `HllEstimate.LiteralZerosExact`.
- `hyperloglog.cpp:197-208` lets `cnt` wrap: `HllConvert.Densify` takes the wrap as a parameter,
  `HllConvert.LiteralDensifyExact` says when it does no harm.
- `hyperloglog.cpp:242, 298` compares with the decremented value, `:312` writes a count of two, `:337, 346, 416` write
  unreduced values, `:354, 370` use the limit 64, `:293` lets the merge start inside an XZERO, and `hll_end` stays behind at
  `:419-420`. `HllSparse.Rule` chooses between the lines as written and as intended. `HllLiteral.AddAsWritten` puts them
  together: it says exactly when add_sparse as written raises the register, and `HllLiteralRun.Replay` carries that over
  whole runs. `HllLiteral.FirstAdd` is a failing first add.
- `server.cpp:122-134`: `rem_ttl` trusts `heap_idx`, which is stale after a removal and never set by `new_node`. The model
  removes what is at that index, whosever it is; `Ttl.Deadlines.Persist` says exactly when that is right, and
  `Ttl.StaleIndex` is a run in which it is not. `set_ttl` on a key that has a deadline leaves two entries, which no
  back-pointers can serve (`Ttl.Deadlines.SetTtl`, `Ttl.TwoEntries`).
- `redis_functions.cpp:513-514` turns a negative count into the whole list (`ListDeque.PopCountIs`), `:597-598` clamps
  LRANGE to the size (`ListDeque.RangeExact`), `:219-223` counts elements where `:192` says pairs
  (`ZQuery.LimitCountsElements`).

## Model

| member | source | states |
|---|---|---|
| `AvlTree.AvlHeight` | src/data_structures/avl_tree.cpp:85-90 | the recomputed height is the height of the tree the links spell out |
| `AvlTree.UpdateNode` | src/data_structures/avl_tree.cpp:5-9 | with exact caches below, the node's cached height and size become exact |
| `AvlTree.RotateLeft` | src/data_structures/avl_tree.cpp:11-31 | links, parent pointers and caches of the rotated shape, left in place of the old one |
| `AvlTree.RotateRight` | src/data_structures/avl_tree.cpp:33-53 | the mirror image |
| `AvlShape.RebalanceKeeps` | src/data_structures/avl_tree.cpp:105-116 | the single or double rotation keeps the in-order sequence, nodes and count |
| `AvlShape.RebalanceBalances` | src/data_structures/avl_tree.cpp:102-116 | it balances a node whose sides differ by two, and loses at most one level |
| `AvlTree.AvlFix` | src/data_structures/avl_tree.cpp:93-124 | the upward walk ends at the root of the repaired tree with every parent pointer, height and size right |
| `AvlShape.FixUpCorrect` | src/data_structures/avl_tree.cpp:93-124 | that tree is balanced at every node and has the same in-order sequence |
| `AvlShape.HeightBound` | src/data_structures/avl_tree.cpp:93-124 | a balanced tree of height h has at least 2^(h/2) - 1 nodes |
| `AvlTree.DelSimple` | src/data_structures/avl_tree.cpp:55-75 | a node with at most one child goes; the rest stays in order in a complete AVL tree |
| `AvlTree.Successor` | src/data_structures/avl_tree.cpp:131-135 | the walk ends at the node right after the deleted one in order |
| `AvlTree.Replace` | src/data_structures/avl_tree.cpp:138-157 | the successor takes the place of the node wherever the first fix-up has moved it |
| `AvlTree.AvlDel` | src/data_structures/avl_tree.cpp:126-158 | a complete AVL tree whose in-order sequence is the old one without exactly the deleted node |
| `ZOrder.MemCmpIsLex` | src/data_structures/zset.cpp:46-50 | memcmp on the common length, then the sizes, is lexicographic order of the keys |
| `ZOrder.LexIs` | src/data_structures/zset.cpp:46-50 | that order: the shorter of two keys first if it begins the other, otherwise the smaller byte at the first difference |
| `ZOrder.ZLessIs` | src/data_structures/zset.cpp:42-51 | zless holds exactly for a smaller score, or an equal score and a smaller key in that order |
| `ZOrder.ZLessTransitive` | src/data_structures/zset.cpp:42-51 | zless is transitive |
| `ZOrder.ZLessTotal` | src/data_structures/zset.cpp:42-51 | exactly one of less, equal, greater holds |
| `ZOrder.RankSplits` | src/data_structures/zset.cpp:121-139 | in a sorted sequence, the positions below the rank are exactly those less than the pair |
| `ZOrder.RankInScores` | src/data_structures/zset.cpp:121-139 | those are the members of smaller score, or of that score and a smaller key |
| `ZTree.AttachLeaf` | src/data_structures/zset.cpp:93-95 | a leaf hung at an empty place, and avl_fix: a complete AVL tree with the leaf at that place in order |
| `ZTree.TreeInsert` | src/data_structures/zset.cpp:84-95 | the descent finds the leaf's rank; the result is sorted, balanced, and has the leaf inserted there |
| `ZTree.TreeDelete` | src/data_structures/zset.cpp:60 | the sorted tree without exactly that node |
| `ZTree.LowerBound` | src/data_structures/zset.cpp:121-139 | the node at the rank of the pair, NULL if all are less |
| `ZTree.Offset` | src/data_structures/zset.cpp:141-172 | the walk up and down ends at in-order index i + offset, and at NULL exactly when that is outside the tree |
| `ZSet.IdInjective` | src/data_structures/hashmap.cpp:39 | on NUL-free keys the comparison of ht_lookup is equality of keys |
| `ZSet.ZSet.Lookup` | src/data_structures/zset.cpp:100-113 | finds the member's node if and only if the key is a member |
| `ZSet.ZSet.Delete` | src/data_structures/zset.cpp:53-66 | removes the member from tree and map, and only it |
| `ZSet.ZSet.Insert` | src/data_structures/zset.cpp:69-98 | the member has the new score, all others are as before, and the result says whether it is new |
| `ZSet.ZSet.Remove` | src/redis_functions.cpp:175-183 | ZREM drops the member if it is there and says so |
| `ZSet.ZSet.Score` | src/redis_functions.cpp:149-163 | the score last set |
| `ZSet.ZSet.InOrderIsMembers` | src/data_structures/zset.cpp:42-113 | the tree lists every member once, by rising score, and by rising key in dictionary order where scores are equal |
| `ZSet.Replay` | src/data_structures/zset.cpp:53-113 | every run of inserts, updates and deletes is a plain map from key to score, held by a valid tree and map with the same nodes |
| `ZQuery.RangeQuery` | src/redis_functions.cpp:204-228 | the reply is the page of the sorted sequence from rank plus offset on, at most ceil(limit/2) members, under its exact length |
| `ZQuery.Emit` | src/redis_functions.cpp:214-227 | the patched length is the number of elements written |
| `ZQuery.ReplyReads` | src/client.cpp:51-102 | read as the client does it, a reply is the length of the array and then score and key of each member of the page, the score first |
| `ZQuery.LimitCountsElements` | src/redis_functions.cpp:186-224 | the page is the documented one exactly when at most one pair is asked for or half the limit suffices |
| `HashTable.Pow2Passes` | src/data_structures/hashmap.cpp:13-15 | every capacity the map uses passes h_init's assertion |
| `HashTable.MaskIsRemainder` | src/data_structures/hashmap.cpp:88 | and with a power of two less one as mask is the remainder by that power |
| `HashTable.HTab.Lookup` | src/data_structures/hashmap.cpp:29-45 | a node of that identity with its predecessor in the chain, none if and only if there is none |
| `HashTable.HTab.Unlink` | src/data_structures/hashmap.cpp:60-85 | exactly that node leaves the table; the value is torn down if it is a container |
| `HashTable.HTab.Insert` | src/data_structures/hashmap.cpp:87-93 | exactly that node is added, in its slot |
| `HashTable.HTab.ForEach` | src/data_structures/hashmap.cpp:113-125 | every node's key once |
| `HashMap.SlotIs` | src/data_structures/hashmap.cpp:87-93 | a node's slot in a table of 2^e slots is its hash code modulo 2^e |
| `HashMap.CursorInside` | src/data_structures/hashmap.cpp:97-102 | while the older table holds nodes the cursor is inside it |
| `HashMap.MoveOne` | src/data_structures/hashmap.cpp:103-105 | one node changes tables; slots below the cursor stay empty |
| `HashMap.Migrate` | src/data_structures/hashmap.cpp:95-106 | the loop ends, moves min(128, older.size) nodes and loses none; no node that stays has a lower slot than one that moved |
| `HashMap.PacedInsert` | src/data_structures/hashmap.cpp:156-169 | an insert keeps older.size + 128 (total - 8n + 1) <= 8n |
| `HashMap.PacedDelete` | src/data_structures/hashmap.cpp:136-154 | so does a delete |
| `HashMap.PacedLoad` | src/data_structures/hashmap.cpp:10-11 | the bound keeps both tables together below 8 nodes per newer slot |
| `HashMap.PacedRun` | src/data_structures/hashmap.cpp:136-169 | the bound holds at the end of every run |
| `HashMap.MigrationEnds` | src/data_structures/hashmap.cpp:95-111 | whatever deletes and other calls come in between, a run with one insert for every 128 older nodes passes through a state without an older table |
| `HashMap.HMap.Size` | src/data_structures/hashmap.cpp:177-179 | the number of nodes of both tables |
| `HashMap.HMap.Lookup` | src/data_structures/hashmap.cpp:127-134 | finds a node of that identity in either table, none if and only if there is none |
| `HashMap.HMap.Keys` | src/data_structures/hashmap.cpp:181-184 | the key of every node once |
| `HashMap.HMap.Delete` | src/data_structures/hashmap.cpp:136-154 | removes exactly one node of that identity if there is one, at any point of a migration |
| `HashMap.HMap.Rehash` | src/data_structures/hashmap.cpp:22-26 | the newer table becomes the older one under an empty table of twice the capacity |
| `HashMap.HMap.RehashHelp` | src/data_structures/hashmap.cpp:95-111 | up to 128 nodes move, from the lowest slots, and an emptied older table is dropped |
| `HashMap.HMap.Insert` | src/data_structures/hashmap.cpp:156-169 | adds exactly the node, whatever migrates; torn down are the values of exactly the containers that leave the older table, where an insert that reaches the load limit makes the newer table the older one first; those that leave it have the lowest slots |
| `HashMap.MovedBySlot` | src/data_structures/hashmap.cpp:95-106 | hash codes decide which nodes are moved: one with at most 127 others up to its slot is, one with 128 or more in lower slots is not |
| `HashMap.InsertDecides` | src/data_structures/hashmap.cpp:95-169 | so they do for an insert, from what the tables held before it |
| `HashMap.InsertHolds` | src/data_structures/hashmap.cpp:156-169 | after it the newer table is below its load limit and nothing is lost |
| `HashMap.MigrationDestroys` | src/data_structures/hashmap.cpp:68-110 | an insert that starts a migration of at most 128 nodes tears down every ZSET and HSET value in the map, the new one included |
| `HashRun.Dict.Get` | src/data_structures/hashmap.cpp:127-134 | the map's value at that identity |
| `HashRun.Dict.Size` | src/data_structures/hashmap.cpp:177-179 | the size of the map |
| `HashRun.Dict.Keys` | src/data_structures/hashmap.cpp:181-184 | the key of each entry of the map once, every byte as it was put |
| `HashRun.Dict.Put` | src/data_structures/hashmap.cpp:156-169 | an insert after a lookup that found nothing: the map with that entry, of that key, kind and value, the load of the tables after it, and the values torn down, which hash codes decide |
| `HashRun.TallyPut` | src/data_structures/hashmap.cpp:60-111 | an insert keeps the exact account: of the nodes in the map, the latest migration has torn down the containers it started with and has moved, those from the lowest slots, and a container inserted meanwhile keeps its value until the next one starts |
| `HashRun.TallyDrop` | src/data_structures/hashmap.cpp:136-154 | so does a delete |
| `HashRun.Replay` | src/data_structures/hashmap.cpp:127-169 | every run of lookups, deletes and inserts of absent keys answers as one plain map from identity to key, kind and value, and in every intermediate state the tables hold a node for each entry and no other; each insert tears down the values of the containers that the tables before it and hash codes decide; of the nodes in the map at the end, the values torn down by the latest migration are exactly those of the containers present when it started and no longer in the older table, and with those present when the migration before started they are all that were torn down in the run |
| `HashRun.FirstMigration` | src/data_structures/hashmap.cpp:95-169 | in every run that begins with 32 inserts the first 31 tear nothing down, and the 32nd moves all nodes to a table of 8 slots and tears down the containers among them |
| `HashRun.FirstMigrationTakesAll` | src/data_structures/hashmap.cpp:60-111 | so if all 32 are ZSETs or HSETs, whatever their keys, all 32 values are torn down |
| `HashRun.RunMigrationEnds` | src/data_structures/hashmap.cpp:95-169 | in every run from an empty map a migration under way has ended once the inserts since pay for its older nodes at 128 each |
| `HllDense.SetRegUpdates` | src/data_structures/hyperloglog.cpp:79-108 | setting a register updates that entry of the register vector and nothing else, header and terminator included |
| `HllDense.PackedGroup` | src/data_structures/hyperloglog.cpp:79-108 | four registers are the base-64 digits of the three bytes they share, the first one lowest |
| `HllBits.GetRegIs` | src/data_structures/hyperloglog.cpp:79-92 | as intended: the register is the shift-and-or expression of get_reg on unsigned bytes, with the two upper bits cleared |
| `HllBits.GetRegLiteralIs` | src/data_structures/hyperloglog.cpp:79-92 | as written: what is read is that 32-bit expression on sign-extended chars, clamped to a byte |
| `HllDense.LiteralReadExact` | src/data_structures/hyperloglog.cpp:84-91 | the signed, unmasked read is right exactly when the next register is divisible by 4 and the register's first byte has its top bit clear |
| `HllDense.LiteralReadFails` | src/data_structures/hyperloglog.cpp:84-91 | one add of a rank not divisible by 4 to an empty string makes the register before it misread |
| `HllSpill.LiteralReadIs` | src/data_structures/hyperloglog.cpp:84-91 | the value the signed, unmasked read gives for any register and its neighbour, in closed form |
| `HllSpill.MisreadLarge` | src/data_structures/hyperloglog.cpp:84-91 | a misread is 64 or more |
| `HllSpill.SpillAt` | src/data_structures/hyperloglog.cpp:93-108 | set_reg of a value above 63 stores its lower six bits and ors the rest into the next register; no other register changes |
| `HllSpill.SetRegNarrow` | src/data_structures/hyperloglog.cpp:93-108 | on values below 64 that is the packed write of HllDense |
| `HllBits.SetRegIs` | src/data_structures/hyperloglog.cpp:94-108 | for any value of eight bits, set_reg writes the two bytes that its 32-bit expressions give, and no other |
| `HllFlags.ParseEnc` | src/data_structures/hyperloglog.cpp:28-54 | decoding undoes encoding for every flag list |
| `HllFlags.FlagBits` | src/data_structures/hyperloglog.cpp:28-53 | the bits of the three flags, each number stored as one less |
| `HllFlags.EncParse` | src/data_structures/hyperloglog.cpp:28-54 | encoding undoes decoding unless the bytes end inside an XZERO |
| `HllSparse.Locate` | src/data_structures/hyperloglog.cpp:269-295 | the scan finds the flag that holds the register and its bounds; the merge is to start at the flag before, as intended at its first byte, as written at its last |
| `HllSparse.SplitVal` | src/data_structures/hyperloglog.cpp:331-348 | the tmp bytes of a split VAL run, with its value reduced as intended or one too large as written |
| `HllBits.OrValIs` | src/data_structures/hyperloglog.cpp:335-347 | the byte of a part of a split VAL run as written is (1 << 7) OR (value << 2) OR count, clamped |
| `HllSparse.SplitZeros` | src/data_structures/hyperloglog.cpp:349-378 | the tmp bytes of a split run of zeros, with the limit 63 as intended or 64 as written |
| `HllSparse.AddInPlace` | src/data_structures/hyperloglog.cpp:302-315 | a single VAL or ZERO becomes a VAL with the new value, over one register as intended; as written, over a ZERO, over two |
| `HllSparse.SplitRun` | src/data_structures/hyperloglog.cpp:330-380 | as intended: the tmp bytes encode the run with that one register set, in at most three bytes more |
| `HllSparse.SplitVec` | src/data_structures/hyperloglog.cpp:330-380 | the pieces stand for the run's registers with that one replaced |
| `HllSparse.MergeFrom` | src/data_structures/hyperloglog.cpp:395-427 | as intended: merging keeps the vector, and five steps from the flag before the splice leave no two VAL flags that could be one |
| `HllSparse.AddRun` | src/data_structures/hyperloglog.cpp:255-431 | as intended: the decoded vector is the old one with that register raised to the value, the result is 1 exactly when it changed, runs of zeros stay apart, a split run leaves the list merged, and the string grows by at most three bytes |
| `HllSparse.LiteralZeroLimit` | src/data_structures/hyperloglog.cpp:354-377 | the written zero run decodes to its length exactly when that is not 65 |
| `HllMerge.MergeExact` | src/data_structures/hyperloglog.cpp:393-427 | as written, with unreduced values and a fixed end, the merge loop keeps the registers exactly when it finds nothing to merge |
| `HllLiteral.ZerosExact` | src/data_structures/hyperloglog.cpp:349-427 | a run of zeros split, put in place and merged as written stands for the right registers exactly when no part is 65 long and none of the flags the merge looks at can be merged |
| `HllLiteral.AddAsWritten` | src/data_structures/hyperloglog.cpp:247-431 | add_sparse as written, from any list whose runs of zeros are apart, raises the register exactly when it lies in a VAL that is large enough, in a single VAL not one below the value, or in a run of zeros, not a single ZERO, that splits as in ZerosExact; it then leaves such a list again |
| `HllLiteral.FirstAdd` | src/data_structures/hyperloglog.cpp:349-378 | add_sparse as written on the string of hll_init, register 65: other registers than intended |
| `HllLiteral.AddToTwo` | src/data_structures/hyperloglog.cpp:349-378 | add_sparse as written on the string of hll_init, register 2: two zeros, the value, the other zeros |
| `HllLiteralRun.Replay` | src/data_structures/hyperloglog.cpp:486-508 | a run of hll_add as written on a string that stays sparse, up to its first add that does not meet the condition of AddAsWritten: until then the registers are those of the plain vector updated by max, and that add makes them wrong |
| `HllConvert.Densify` | src/data_structures/hyperloglog.cpp:190-209 | the dense registers are those scattered by the flags, with or without the wrap-around of cnt |
| `HllConvert.ScatterIsVec` | src/data_structures/hyperloglog.cpp:190-209 | without the wrap-around, or with one VAL flag at most, they are the registers the flags stand for |
| `HllConvert.LiteralDensifyExact` | src/data_structures/hyperloglog.cpp:197-208 | with the wrap-around, exactly then |
| `HllEstimate.DenseSum` | src/data_structures/hyperloglog.cpp:150-159 | as intended: the harmonic sum of the register vector |
| `HllEstimate.DenseSumAsWritten` | src/data_structures/hyperloglog.cpp:149-159 | as written: that sum exactly when every register is read right; otherwise some 1ull << reg has no value |
| `HllEstimate.SparseSum` | src/data_structures/hyperloglog.cpp:215-238 | the same sum, computed run by run |
| `HllEstimate.DenseZeros` | src/data_structures/hyperloglog.cpp:124-134 | as intended: the number of zero registers |
| `HllEstimate.DenseZerosAsWritten` | src/data_structures/hyperloglog.cpp:124-134 | as written: never more than that, and equal exactly when no zero register is followed by one not divisible by 4 |
| `HllEstimate.SparseZeros` | src/data_structures/hyperloglog.cpp:135-147 | as intended: the same number, run by run |
| `HllEstimate.LiteralZerosExact` | src/data_structures/hyperloglog.cpp:135-147 | the count with iszero, on a list whose runs of zeros are apart: never less than the number of zero registers, and equal exactly when no ZERO is longer than one register |
| `HllEstimate.LiteralZerosFails` | src/data_structures/hyperloglog.cpp:138-143 | on the string that one add to register 2 leaves, a ZERO of two registers is counted as 385 |
| `HllEstimate.FormulaApplies` | src/data_structures/hyperloglog.cpp:150-159 | the sum that the estimate divides by is positive for every register vector |
| `HllEstimate.ZeroRegsIs` | src/data_structures/hyperloglog.cpp:135-147 | the zeros counted are the occurrences of 0 in the register vector |
| `HllEstimate.RawEstimate` | src/data_structures/hyperloglog.cpp:150-159 | without a zero register, or with a raw estimate above 40960, the answer times the sum is 0.7213 / (1 + 1.079 / 16384) times 16384 squared |
| `HllEstimate.LinearCounting` | src/data_structures/hyperloglog.cpp:473-478 | with zero registers and a raw estimate of at most 40960 the answer is 16384 log(16384 / zeros), whatever the sum |
| `HllEstimate.FewerZeros` | src/data_structures/hyperloglog.cpp:473-478 | there, for a monotone logarithm, it does not fall as zeros become fewer |
| `HllEstimate.EmptyEstimate` | src/data_structures/hyperloglog.cpp:464-484 | registers that are all zero give 0 if log(1) is 0 |
| `HllCache.SetCache` | src/data_structures/hyperloglog.cpp:56-65 | the cache is valid and holds the number; no other byte changes |
| `HllCache.GetCache` | src/data_structures/hyperloglog.cpp:67-76 | the number the eight bytes hold |
| `HllCache.LeRoundTrip` | src/data_structures/hyperloglog.cpp:56-76 | little-endian bytes read back as the number |
| `HllHash.Split` | src/data_structures/hyperloglog.cpp:488-501 | register number and rank of a 64-bit hash: the register is the number r with r 2^50 <= hash < (r + 1) 2^50 |
| `HllHash.RegNoIs` | src/data_structures/hyperloglog.cpp:489 | the register number is the upper 14 bits: with the lower 50 it makes up the hash |
| `HllHash.PartsDetermine` | src/data_structures/hyperloglog.cpp:489-490 | two hashes with the same register number and the same lower 50 bits are equal |
| `HllHash.RankIs` | src/data_structures/hyperloglog.cpp:492-501 | the rank brackets the lower 50 bits between two powers of two and is 51 exactly when they are zero |
| `Hll.Init` | src/data_structures/hyperloglog.cpp:434-454 | a sparse string of 16384 zero registers without a valid cache, in two bytes after the header: 127 and 255 |
| `Hll.DenseInit` | src/data_structures/hyperloglog.cpp:161-178 | a dense one |
| `Hll.AddDense` | src/data_structures/hyperloglog.cpp:110-122 | as intended: raises the register, reports a change and then invalidates the cache; without a change no byte changes |
| `Hll.AddDenseAsWritten` | src/data_structures/hyperloglog.cpp:110-122 | as written: raises the register exactly when it is large enough already, or its first byte has its top bit clear and the next register is divisible by 4; what is reported, stored and invalidated goes by the value read |
| `Hll.ToDense` | src/data_structures/hyperloglog.cpp:180-212 | as intended: converts without changing the vector |
| `Hll.AddSparse` | src/data_structures/hyperloglog.cpp:240-431 | as intended: like AddDense; the result is dense exactly when the value is above 32 or the string longer than 2995 bytes; a string that stays sparse stays within 3000 bytes, so the second conversion in hll_add is never reached |
| `Hll.MergeDense` | src/data_structures/hyperloglog.cpp:510-523 | as intended: the registerwise maximum; the cache goes exactly when that is a change |
| `HllSpill.MergeAsWritten` | src/data_structures/hyperloglog.cpp:510-523 | as written: the registers are those that the closed form of misreads and spills gives, `changed` is set exactly when a read of the source beats one of the destination, and the terminator stays zero exactly when the last registers are below 32 |
| `HllSpill.PutTop` | src/data_structures/hyperloglog.cpp:510-523 | what runs over into a register, from the register before it and itself in both strings |
| `HllSpill.LiteralMergeExact` | src/data_structures/hyperloglog.cpp:510-523 | those are the registerwise maximum exactly when at each register, as it and its two neighbours in both strings tell, either the source's read wins, its register is not smaller and sign extension has not filled it, or what the destination holds there, filled or not, is the maximum |
| `HllSpill.LiteralMergeReads` | src/data_structures/hyperloglog.cpp:510-523 | every value the merge reads is right exactly when every register of both strings can be read, and then so is its result |
| `HllSpill.LiteralMergeFails` | src/data_structures/hyperloglog.cpp:512-519 | register 1 of the destination makes a larger register 0 of the source lose |
| `HllSpill.UnseenChange` | src/data_structures/hyperloglog.cpp:510-523 | merging equal strings is never seen as a change, yet a register in the second slot can become another one |
| `Hll.MergeDenseAsWritten` | src/data_structures/hyperloglog.cpp:510-523 | as written: registers, cache and terminator after hll_merge; the cache stays coherent where every register of the destination can be read, since a misread of the source then counts as a change |
| `Hll.HyperLogLog.Add` | src/data_structures/hyperloglog.cpp:486-508 | as intended: registers updated by max, change reported, cache still coherent, no byte changed without a change or a conversion, and the encoding after it |
| `Hll.HyperLogLog.Count` | src/data_structures/hyperloglog.cpp:464-484 | as intended: the estimate of the current registers, cached or not, and cached afterwards; nothing if it fails the 63-bit assertion |
| `Hll.HyperLogLog.CountByFormula` | src/data_structures/hyperloglog.cpp:464-484 | as intended, with the formula of hll_count: rounded, with the small range correction, and never dividing by zero |
| `Hll.CountOfNew` | src/data_structures/hyperloglog.cpp:464-484 | hll_count on the string of hll_init answers 0 |
| `Hll.HyperLogLog.Merge` | src/data_structures/hyperloglog.cpp:510-523 | as intended: registerwise maximum with a coherent cache, which is lost exactly on a change |
| `HllRun.Replay` | src/data_structures/hyperloglog.cpp:464-508 | as intended: every run of adds and counts, through both encodings and any cache state, replies as a plain vector of registers updated by max |
| `HllRun.RunBoth` | src/data_structures/hyperloglog.cpp:464-523 | as intended: every run of adds, counts and merges on two strings replies and goes on step by step as two plain vectors do, both caches coherent at every step; a merge needs both strings dense |
| `HllRun.RegisterIsLargest` | src/data_structures/hyperloglog.cpp:486-508 | a register is the largest rank among the hashes that fall into it |
| `HllRun.SameHashesSameRegisters` | src/data_structures/hyperloglog.cpp:486-508 | order and repetition of values do not matter |
| `HllRun.MergeIsUnion` | src/data_structures/hyperloglog.cpp:510-523 | merging two vectors is having added the values of both |
| `Heap.HeapUp` | src/data_structures/heap.cpp:17-27 | leaves the entries as the function Up says: a permutation with every back-pointer set, in order above the position |
| `Heap.HeapDown` | src/data_structures/heap.cpp:29-56 | leaves the entries as the function Down says: a permutation with every back-pointer set, in order below the position when it goes into the smaller child; as written, exactly when the way left passes no smaller right child |
| `Heap.HeapFix` | src/data_structures/heap.cpp:58-67 | from a heap wrong at one position: entries and back-pointers always, order under that condition |
| `Heap.RootIsLeast` | src/server.cpp:102 | the first entry of an ordered heap has the earliest deadline |
| `Heap.LinkedDistinct` | src/server.cpp:113-120 | back-pointers that all fit exclude two entries of one key |
| `Ttl.Deadlines.SetTtl` | src/server.cpp:113-120 | one entry more, in order if the heap was; from a linked heap the result is linked exactly when the key had no deadline |
| `Ttl.TwoEntries` | src/server.cpp:113-120 | a second deadline of one key leaves two entries of it |
| `Ttl.Deadlines.HasTtlIs` | src/server.cpp:122-125 | a key's index leads to its own entry exactly when it has one |
| `Ttl.Deadlines.RemTtl` | src/server.cpp:122-134 | removes the entry at the key's index, whosever it is, nothing if that is no index; linked if it was; in order if it was, for the code as written exactly under the condition of HeapFix |
| `Ttl.Deadlines.Persist` | src/server.cpp:122-134 | the deadlines are those before without the key's exactly when the key has one or its index is beyond the heap |
| `Ttl.StaleIndex` | src/server.cpp:113-134 | set a, remove a, set b, remove a: the deadline of b is gone |
| `Ttl.Deadlines.Expire` | src/server.cpp:100-111 | takes expired roots off, and their keys, until one has not expired or 201 are gone; from a heap in order, the heaps it goes through, which the first one decides, are in order exactly when each removal of a root is one that keeps the order, as all are going into the smaller child, and then it goes by deadline, earliest first, with none later than one that stays and none expired left below the cap |
| `Ttl.TrailExact` | src/server.cpp:100-110 | from a heap in order a pass goes through heaps in order exactly when every removal keeps the order |
| `Ttl.Replay` | src/server.cpp:100-134 | over every run that sets deadlines where there are none, removes them where there are, and makes expiry passes, the heap holds exactly those set and not removed or expired, linked; from a heap in order it stays in order throughout exactly when every removal is one that keeps the order, as all are going into the smaller child, and each such pass does what Expire promises |
| `Ttl.DescentFails` | src/data_structures/heap.cpp:45-48 | a heap of four entries in order, from which the code as written does not remove the root in order |
| `Ttl.PassFails` | src/server.cpp:100-110 | the pass at time 2 over that heap, as written: it removes 0, stops at 2, and leaves the deadline 1 |
| `ThreadPool.StepKeepsInv` | src/threadpool.cpp:4-50 | every step keeps mutual exclusion, FIFO order, conservation and the wakeup bound |
| `ThreadPool.Safety` | src/threadpool.cpp:4-50 | on every interleaving, spurious wakeups included: each job produced is queued, in hand or finished as often as it was produced, jobs are taken in order, and while the mutex is free and a worker waits the queue is no longer than the workers about to check it |
| `ThreadPool.CallsArePushed` | src/threadpool.cpp:45-50 | on every run from the start each job has been queued as often as it was called for, but for the calls on their way to the queue |
| `ThreadPool.SomeStep` | src/threadpool.cpp:7-50 | as long as anything is left to do some thread can go on |
| `ThreadPool.QuietRunFinishes` | src/threadpool.cpp:7-50 | without new calls and spurious wakeups every run is bounded and can only stop with all jobs finished |
| `ThreadPool.CallsAreFinished` | src/threadpool.cpp:7-50 | once all is done, every job has been finished exactly as often as it was called for |
| `Framing.Encode` | src/client.cpp:136-168 | the message of a command, or none if its 32-bit length exceeds 4096 |
| `Framing.FrameExample` | src/client.cpp:136-168 | the bytes of GET a |
| `Framing.ParseCmd` | src/server.cpp:155-180 | the command at the front of a buffer, none if reading it leaves the buffer |
| `Framing.ParseBack` | src/server.cpp:155-180 | parsing undoes encoding, whatever follows |
| `Framing.Conn.TryOneReq` | src/server.cpp:299-337 | dispatches and consumes one whole message, or waits |
| `Framing.Conn.HandleRead` | src/server.cpp:374-375 | after a read, exactly the whole messages in the buffer have been dispatched |
| `Framing.ChunkIndependent` | src/server.cpp:299-375 | for every split of a stream of messages into reads: always a prefix of the commands, at the end all of them and an empty buffer |
| `Framing.Serve` | src/server.cpp:362-375 | a connection fed those chunks dispatches exactly those commands |
| `Dlist.Detach` | src/data_structures/dlist.cpp:12-22 | the neighbours point at each other |
| `Dlist.InsertBefore` | src/data_structures/dlist.cpp:24-34 | the node sits between the target and its predecessor |
| `Dlist.InsertAfter` | src/data_structures/dlist.cpp:36-46 | the mirror image |
| `ListDeque.List.Push` | src/redis_functions.cpp:465-490 | one element more at that end, whatever stale ends an empty list had; the reply is the length |
| `ListDeque.PushedEnd` | src/redis_functions.cpp:465-490 | a left push becomes element 0, a right push element -1, and the others follow or come before it |
| `ListDeque.PopAfterPush` | src/redis_functions.cpp:465-545 | a pop on the same side takes back a push: its value, and the list as it was |
| `ListDeque.PopOther` | src/redis_functions.cpp:465-545 | after a push on the other side a pop takes what it took before |
| `ListDeque.List.Pop` | src/redis_functions.cpp:513-545 | that many elements off that end, in order, or an error and no change |
| `ListDeque.TakenIs` | src/redis_functions.cpp:521-543 | the reply lists the popped elements from the outside in |
| `ListDeque.PopCountIs` | src/redis_functions.cpp:513-518 | as many as asked for and there are; all of them for a negative count |
| `ListDeque.List.LRange` | src/redis_functions.cpp:570-606 | the slice, an error, or a null read, from whichever end the walk starts |
| `ListDeque.RangeExact` | src/redis_functions.cpp:596-605 | LRANGE gives the clamped slice exactly unless it starts after the first element and ends beyond the last |
| `ListDeque.RangeNumbers` | src/redis_functions.cpp:570-606 | LRANGE with bounds inside the list gives the elements between them, both included; negative bounds count from the end, -1 being the last element |
| `ListDeque.RangeError` | src/redis_functions.cpp:569-578 | LRANGE is an error exactly when the start lies outside the list |
| `ListDeque.Replay` | src/redis_functions.cpp:465-545 | every run of pushes and pops is a deque, linked both ways |
| `IdleRing.IdleList.constructor` | src/data_structures/dlist.cpp:3-6 | an empty ring |
| `IdleRing.IdleList.Accept` | src/server.cpp:351-357 | the new connection comes last, with the current time |
| `IdleRing.IdleList.Touch` | src/server.cpp:500-503 | an active connection comes last with the current time, the others stay as they were |
| `IdleRing.IdleList.Close` | src/server.cpp:49-56 | the connection leaves the ring, the others stay in order |
| `IdleRing.ExpiredIs` | src/server.cpp:61-72 | expired is idle for more than 100000 milliseconds |
| `IdleRing.IdleList.TimerPass` | src/server.cpp:61-72 | under a monotone clock the pass closes exactly the connections idle for more than 100 seconds |
| `IdleRing.Replay` | src/server.cpp:49-72 | over every run of accepts, activity, closes and timer passes under a monotone clock, the ring is the map from the open connections to their last activity, oldest first, and a pass closes exactly those idle for more than 100 seconds |

## Left out

- Integer widths of sizes, ranks, deadlines and LRANGE bounds: unbounded in the model, so it says nothing about 2^31 or
  more members, sums past 2^64 milliseconds, or an LRANGE end of 2^31 - 1. Where a width shapes the result it is written
  out: byte and 6-bit packing, 63-bit cache, 64-bit hash, 32-bit message lengths and pop counts, the wrap of `cnt`.
- Floating point: scores are ordered reals without NaN, harmonic sums are exact, and hll_count's rounding of a long double
  is the floor of a real. The statistical error of HyperLogLog is not stated.
- Sockets, poll, accept, reading and writing, printing; of the interactive client all but how it encodes requests and
  reads a reply of scores and keys.
- The read and write timeout lists: their nodes may be linked or detached twice (src/server.cpp:376-405).
- Allocation, `free` and `realloc`; `dstr` capacity bookkeeping. Strings are byte sequences.
- MurmurHash: any function from keys to numbers.
- Command dispatch by name, the string, hash, set and bitmap commands, MULTI/EXEC, `do_pfmerge` (it has no body):
  thin wrappers whose contracts would be easy. SADD may insert an element twice; the map's results on one node per key
  are for callers that look up first, as the sorted set does.
- `next_timer_ms`: short arithmetic.
- The background teardown of containers with 1000 or more entries: counted as destroyed like the others.
- HashMap.HMap.Insert: the node object must not already be in the map, as with every node fresh from `new_node`.
- Ttl.Deadlines.Expire: the database is a set of keys; that hm_delete removes exactly the node is proved of the hash map.
- ThreadPool.Safety: a worker's function runs to its end in one step; what it does to shared data is not modelled.
- Framing.ChunkIndependent: covers what the client can send, non-empty commands of at most 4096 bytes. Bytes whose counts
  point outside the message make parse_cmd read past the buffer; the model stops there.
- Hll.HyperLogLog.Merge: both strings dense, as hll_merge assumes without checking.
- HllLiteral.AddAsWritten: below the conversion guard. A string above it goes through densify and add_dense, whose
  conditions are stated each on its own (`HllConvert.LiteralDensifyExact`, `Hll.AddDenseAsWritten`).
- HllLiteralRun.Replay: what further adds do to a string that one has made wrong is not stated.
- IdleRing.Replay: an event on a connection that is not open changes nothing, as poll reports open ones only.
