# CrossDB storage layer: verified model

This project models the storage layer of CrossDB in Dafny and proves what it is meant to
guarantee. Where the original changes arrays in place, so does the model: node arrays, slot
heads, bitmaps, log memory and text buffers are fields or arrays that methods rewrite, and
every method is proved against a value it represents.

- **Red-black index** (`Rb*.dfy`, `Keys.dfy`, `RowWord.dfy`, `RowGroups.dfy`). A node array
  with packed colour and sibling words stores a tree (`RbShape.Tree`); a zipper
  (`RbShape.Path`) carries the two fixup loops. Duplicates hang off a node in a list that
  reuses the links. `RbVisible` says which rows a query hands out.
- **Hash index** (`Hash*.dfy`). Slots head chains of tops, one for each key; tops head
  sibling lists. `HashRows` says what rows the index holds, `HashLink` how they are linked,
  `HashSlots` where tops stand while slots double, `HashDup` what the duplicate search finds.
- **Hashing** (`KeyHash.dfy`, `IntIndex.dfy`). The two hashing loops as one polynomial, and an
  index that stores the words of the one and looks for the words of the other.
- **Store** (`Store.dfy`). The block allocator with its free list inside the blocks.
- **Transactions** (`TxSpec.dfy`, `TableRows.dfy`, `Table.dfy`, `CmdSpec.dfy`, `TableRun.dfy`,
  `TableLost.dfy`). A table made of a real `Store` object and a real `HashIndex` object, and
  connections with their row sets. `TxSpec` is the promise: one committed set of rows, one
  private copy for the writer. Every method of `Table` is one step of it. `CmdSpec` says which
  steps every command makes, row by row; `TableRun` executes any commands of any connections
  so, and isolation, rollback and commit are proved of such runs, in terms of the control
  bits and row sets that visibility is computed from.
  `Table.Valid` holds the uniqueness claim: with a unique hash index neither the committed
  rows nor the writer's rows ever hold a key twice, in any state the methods reach.
- **Bitmap** (`BitWord.dfy`, `Bitmap2.dfy`, `Bitmap.dfy`), five levels and two levels.
- **LIKE** (`Like.dfy`), with the abort that prunes backtracking.
- **Write-ahead log** (`Wal*.dfy`, `TableLog.dfy`): the log in memory, read up to its end or to
  a commit that is torn, redo, the two logs that alternate, and a table's own commits logged,
  flushed and recovered.
- **Text** (`Escape.dfy`): escaping a string and tokenizing it in place.
- **Queries** (`Filters.dfy`, `OrQuery.dfy`): choosing an index for filters on integer columns,
  and an OR of index queries against the full scan.

## Reading the model

Row ids, link words and counts are unsigned numbers; the original's row id is a signed
32-bit integer that never goes negative while it is valid. `RowWord.RID_LIMIT` (2^28) bounds
row ids so that the sums by which the original tells an indexed row id from another cannot
wrap to 0; the indexes require it of an added row id, and also that it is at most twice the
node capacity, which `Table` shows always holds. An index keeps, beside the original's
words, the key of every row (`rows`), which the original reads from the table; a key is what
comparisons read of the columns, signed numbers even for unsigned columns. A set of row ids
stands for the visibility check that an index calls back for.

In a run (`TableRun`) a command that must wait for the write lock does nothing, and so does
an insert or update once row ids reach the limit.

Nine results are conditions rather than plain guarantees. Where one fails, there is a method
or lemma with an input.

- `Table.Update`: when the insert that completes an update is refused, the old row has
  already left the writer's view and the statement reports no error. It is refused for lack
  of room (`TableLost.LostForRoom`), or because the duplicate search before it overlooked a
  row (`TableLost.LostForClash`); without a clash of hash words only room is left
  (`Table.OnlyRoom`).
- `HashDup.RightWhen`: the duplicate search stops at the first top with the key's hash word.
  It is right exactly when that top has the key, or no top has that word, or no row has the
  key and that top is alone.
- `KeyHash.Found` and `HashIndex.Query`: a row of a hash index is found by its values exactly
  when its columns read as them and both hash to one word. The hash goes by the type of a
  value, and so depends on how the value is given. A number written in the statement finds
  INT, BIGINT and BOOL columns always, TINYINT and SMALLINT columns when it is not negative,
  unsigned columns of up to 32 bits only when it is 0 (`KeyHash.FoundByLiteral`). Bound to a
  parameter as a signed number it finds unsigned columns up to half their range, and bound as
  an unsigned one always a column of its own width (`KeyHash.FoundByInt64`,
  `KeyHash.FoundByUint`, `KeyHash.FoundByUint64`). Inputs: `IntIndex.NegativeMissed`,
  `IntIndex.UnsignedFound`.
- `RbVisible.RightWhen`: an equality query on the red-black index asks the row sets about a
  sibling by the row id of its tree node. For a reader that is always right. For the writer
  it is right exactly when every sibling it has inserted belongs to a tree node it has
  inserted, and every other sibling is deleted exactly when its tree node is
  (`RbVisible.RightForWriter`). So a row inserted beside a committed tree node is missed
  (`RbVisible.InsertRow`), a deleted sibling is still found, and deleting a tree node hides its
  siblings (`RbVisible.DeleteHides`). Inputs: `RbVisible.OwnInsertMissed`,
  `RbVisible.OwnDeleteFound`, `RbVisible.OwnUpdateMissed`.
- `RbVisible.RefusalRight`: a unique red-black index looks at the tree node with the key, not
  at its siblings (`RbVisible.DuplicateAdmitted`).
- `OrQuery.SqlQuery` and `OrQuery.RightExactly`: a branch that goes through an index is right
  for all rows that the columns can hold in exactly these cases. When the columns can hold
  the values of the last filters, and these hash as rows do: the last filter on every index
  column satisfies the others on that column. When not, so that nothing is reached: on some
  index column no equality with a value the column can hold satisfies all filters there, so
  that nothing is asked for. And always when no row passes the leftover filters.
- `Like.StrLike`: an empty subject is refused by a pattern of percent signs only.
- `WalRedo.RedoIsCommit`: redo equals commit exactly when no row is both new and deleted;
  a valid table keeps the two sets disjoint (`TableLog.ChangeIsCommit`).
- `Filters.HoldsMeans`: on signed columns order filters are wrong exactly when the 64-bit
  difference wraps. On an unsigned column no filter ever holds, though an index on it can find
  rows (`OrQuery.BoundUnsigned`).

## Model

| member | source | states |
|---|---|---|
| `RbTree.RbTree.Add` | src/core/xdb_rbtree.c:240-345 | the tree stays a valid red-black index; a row joins the siblings of the node with its key, or becomes a node at its place in key order; refused exactly when the index is unique and the connection sees the node with that key; node storage grows when needed |
| `RbTree.RbTree.Remove` | src/core/xdb_rbtree.c:537-688 | the tree stays a valid red-black index without the row; a row that is not indexed changes nothing; a first or later sibling leaves its list, a node with siblings is replaced by the first of them, any other node is taken out |
| `RbTree.RbTree.InsertFixup` | src/core/xdb_rbtree.c:140-238 | from a tree with at most one red-red edge at Z the loop ends in a red-black tree with the same in-order sequence; no sibling head changes |
| `RbTree.RbTree.DeleteFixup` | src/core/xdb_rbtree.c:399-535 | from a tree that lacks one black at X, possibly the sentinel, the loop ends in a red-black tree with the same in-order sequence; no sibling head changes |
| `RbTree.RbTree.InsertStep` | src/core/xdb_rbtree.c:149-235 | one round of the insert loop keeps its invariant and moves up or ends it |
| `RbTree.RbTree.InsertRecolour` | src/core/xdb_rbtree.c:158-166 | a red uncle: three colours change, the tree is the same and the problem is two levels higher |
| `RbTree.RbTree.InsertRotateLeft` | src/core/xdb_rbtree.c:167-190 | a black uncle on the right: one or two rotations end the loop |
| `RbTree.RbTree.InsertRotateRight` | src/core/xdb_rbtree.c:206-229 | a black uncle on the left: one or two rotations end the loop |
| `RbTree.RbTree.DeleteStepLeft` | src/core/xdb_rbtree.c:411-469 | one round of the delete loop with X on the left keeps its invariant, moves up or ends it |
| `RbTree.RbTree.DeleteStepRight` | src/core/xdb_rbtree.c:472-528 | one round of the delete loop with X on the right keeps its invariant, moves up or ends it |
| `RbTree.RbTree.DeleteBlackSiblingLeft` | src/core/xdb_rbtree.c:432-468 | a black sibling on the right: the missing black moves up one level, or one or two rotations end the loop |
| `RbTree.RbTree.DeleteBlackSiblingRight` | src/core/xdb_rbtree.c:491-527 | a black sibling on the left: the missing black moves up one level, or one or two rotations end the loop |
| `RbTree.RbTree.LeftRotate` | src/core/xdb_rbtree.c:35-90 | the links of a left rotation |
| `RbTree.RbTree.RightRotate` | src/core/xdb_rbtree.c:91-138 | the links of a right rotation |
| `RbTree.RbTree.Transplant` | src/core/xdb_rbtree.c:347-371 | the parent of U, or the root, takes V, and V, the sentinel included, takes that parent |
| `RbTree.RbTree.Minimum` | src/core/xdb_rbtree.c:373-384 | the leftmost node of a subtree |
| `RbTree.RbTree.RemoveThin` | src/core/xdb_rbtree.c:628-641 | a node with at most one child is spliced out and what is missing is one black at X or nothing |
| `RbTree.RbTree.RemoveFull` | src/core/xdb_rbtree.c:642-673 | a node with two children gives its place and colour to its successor |
| `RbTree.RbTree.FindPlace` | src/core/xdb_rbtree.c:258-287 | the node with the key, or the node under which a new one goes and on which side |
| `RbTree.RbTree.LinkSibling` | src/core/xdb_rbtree.c:289-304 | the words of a new first sibling |
| `RbTree.RbTree.AddSibling` | src/core/xdb_rbtree.c:289-304 | a row with a key that is there already becomes the first sibling of its node; the tree is unchanged |
| `RbTree.RbTree.AddLeaf` | src/core/xdb_rbtree.c:305-340 | a new node goes where its key belongs, and the tree is red-black again |
| `RbTree.RbTree.RemoveSibling` | src/core/xdb_rbtree.c:550-577 | a sibling leaves its list wherever it stands, its words are cleared, the tree is unchanged |
| `RbTree.RbTree.RemoveTop` | src/core/xdb_rbtree.c:579-616 | the first sibling takes the node's place with its colour and links, and the rest of the siblings |
| `RbTree.RbTree.RemoveNode` | src/core/xdb_rbtree.c:618-682 | a node without siblings leaves: the in-order sequence is the old one without it |
| `RbTree.RbTree.Grow` | src/core/xdb_rbtree.c:250-254 | doubling the node storage changes nothing else |
| `RbTree.RbTree.IndexedWords` | src/core/xdb_rbtree.c:545-551 | the words of a row id tell whether it is indexed, whether it is a sibling, and whether a node has siblings |
| `RbLink.StoredRotatedLeft` | src/core/xdb_rbtree.c:35-90 | a left rotation of the stored tree is the rotation of the tree it stores, siblings' heads untouched |
| `RbLink.StoredRotatedRight` | src/core/xdb_rbtree.c:91-138 | a right rotation of the stored tree is the rotation of the tree it stores, siblings' heads untouched |
| `RbLink.StoredPainted` | src/core/xdb_rbtree.c:159-164 | recolouring a node keeps its sibling bits and stores the recoloured tree |
| `RbInsertShape.RecolourKeeps` | src/core/xdb_rbtree.c:158-166 | recolouring keeps the insert invariant |
| `RbInsertShape.OuterLeftKeeps` | src/core/xdb_rbtree.c:182-189 | the last rotation on the left gives a red-black tree |
| `RbInsertShape.OuterRightKeeps` | src/core/xdb_rbtree.c:221-227 | the last rotation on the right gives a red-black tree |
| `RbInsertShape.InsertDone` | src/core/xdb_rbtree.c:236-237 | painting the root black ends an insert |
| `RbDeleteShape.PassUpKeeps` | src/core/xdb_rbtree.c:432-439 | a sibling with two black children turns red and the missing black moves up |
| `RbDeleteShape.RedSiblingLeftKeeps` | src/core/xdb_rbtree.c:417-430 | a red sibling is rotated away |
| `RbDeleteShape.InnerNephewLeftKeeps` | src/core/xdb_rbtree.c:441-455 | an inner red nephew is turned into an outer one |
| `RbDeleteShape.OuterNephewLeftKeeps` | src/core/xdb_rbtree.c:456-467 | an outer red nephew makes up for the missing black |
| `RbDeleteShape.DeleteDone` | src/core/xdb_rbtree.c:533-534 | painting X black ends a delete |
| `RbShape.PlugRedBlack` | src/core/xdb_rbtree.c:140-238 | a tree with a hole is red-black exactly when the path and the subtree fit |
| `RbQuery.QueryEq` | src/core/xdb_rbtree.c:788-944 | an EQ query on a prefix of the columns visits exactly the rows whose key starts with the values, each once, keys ascending in lexicographic order; the tests made of each row are in `RbVisible.QueryRows` |
| `RbQuery.VisitsExactly` | src/core/xdb_rbtree.c:877-941 | the rows visited from the first matching node to the last are those, each once, and of two rows with different keys the one that is smaller in the first column in which they differ comes first |
| `RbQuery.Find` | src/core/xdb_rbtree.c:733-761 | some matching node when there is one, none otherwise; the nodes compared on the way are counted, and are at most 2*log2(node_count+1) |
| `RbQuery.FindMinimum` | src/core/xdb_rbtree.c:763-786 | the first matching node in key order |
| `RbQuery.Successor` | src/core/xdb_rbtree.c:691-710 | the next node in key order, 0 after the last |
| `RbQuery.Predecessor` | src/core/xdb_rbtree.c:712-731 | the previous node in key order, 0 before the first |
| `RbQuery.Maximum` | src/core/xdb_rbtree.c:386-397 | the rightmost node of a subtree |
| `RbQuery.HeightBound` | src/core/xdb_rbtree.c:733-761 | 2 to the height of a red-black tree is at most the square of its node count plus one |
| `RbQuery.Siblings` | src/core/xdb_rbtree.c:910-923 | the sibling list of a node, in order |
| `RbQuery.NodeCountIsKeyCount` | src/core/xdb_rbtree.c:339-342 | node_count is the number of distinct keys |
| `RbQuery.NodesCounted` | src/core/xdb_rbtree.c:339-342 | node_count is the number of tree nodes |
| `RbVisible.QueryRows` | src/core/xdb_rbtree.c:788-944 | hands out, each once and keys ascending, exactly the rows whose key starts with the values, that the leftover filters let pass, and that are valid by their control bits with the row sets asked for their tree node |
| `RbVisible.RightWhen` | src/core/xdb_rbtree.c:909-923 | that test is visibility exactly when no row is open otherwise than its tree node, whatever the control bits |
| `RbVisible.RightForWriter` | src/core/xdb_rbtree.c:909-923 | a writer's queries are right exactly when every new sibling has a new tree node and every other sibling is deleted exactly when its tree node is |
| `RbVisible.RightKeyByKey` | src/core/xdb_rbtree.c:909-923 | they are while the transaction treats all rows of a key alike |
| `RbVisible.InsertRow` | src/core/xdb_rbtree.c:909-923 | a row that a writer adds to the index is refused exactly when the index is unique and a visible tree node has its key; else it is shown to its writer exactly when the tree node with its key, if there is one, is new too |
| `RbVisible.DeleteHides` | src/core/xdb_rbtree.c:909-923 | a row noted as deleted hides all committed rows of its tree node from the writer, or none when it is a sibling |
| `RbVisible.RightForReaders` | src/core/xdb_rbtree.c:909-923 | for a connection without open rows it always is |
| `RbVisible.OwnInsertMissed` | src/core/xdb_rbtree.c:909-923 | a writer does not find its new row beside a committed one of that key |
| `RbVisible.OwnDeleteFound` | src/core/xdb_rbtree.c:909-923 | a writer still finds a sibling it has deleted |
| `RbVisible.OwnUpdateMissed` | src/core/xdb_rbtree.c:909-923 | a writer that has deleted a row and inserted its key again finds neither |
| `RbVisible.RefusalRight` | src/core/xdb_rbtree.c:258-304 | a unique index refuses a key that the connection sees exactly when every visible row with it has a visible tree node |
| `RbVisible.DuplicateAdmitted` | src/core/xdb_rbtree.c:258-304 | a delete and two inserts of one key: the unique index takes both |
| `RowGroups.PromotedPlaced` | src/core/xdb_rbtree.c:579-616 | after a promotion every row id is still in exactly one place |
| `RowGroups.CutPlaced` | src/core/xdb_rbtree.c:550-577 | after a sibling left every other row id is still in exactly one place |
| `Keys.CompareKeys` | src/core/xdb_crud.c:418-519 | comparing integer columns one by one is negative, zero or positive as the first column that differs is smaller, there is none, or it is larger |
| `Keys.LessMeans` | src/core/xdb_crud.c:418-519 | the order of keys is the lexicographic one |
| `HashIndex.HashIndex.Add` | src/core/xdb_hash.c:126-230 | every row of the slot's key is in one top's group; a row joins its key's group at the front or becomes a top; refused exactly when the index is unique and the connection sees some row with that key; slots double when more than half are in use |
| `HashIndex.HashIndex.Remove` | src/core/xdb_hash.c:237-333 | the row leaves, as top, as promoted top, as first or later sibling; a row that is not indexed changes nothing |
| `HashIndex.HashIndex.Query` | src/core/xdb_hash.c:335-395 | visits exactly the rows that read as the values, each once, when the values hash to the word stored for rows; none otherwise; visibility and leftover filters are in `OrQuery.IdxQuery` |
| `HashIndex.HashIndex.Rehash` | src/core/xdb_hash.c:57-124 | after doubling, every top is in the slot of its hash word's low bits; no top is lost or doubled, no sibling list changes, slot_count stays exact, and the walk ends |
| `HashIndex.HashIndex.RehashSlot` | src/core/xdb_hash.c:68-119 | one chain is walked while it loses tops |
| `HashIndex.HashIndex.MoveTop` | src/core/xdb_hash.c:77-117 | a top goes from the chain being walked to the head of another |
| `HashIndex.HashIndex.UnlinkTop` | src/core/xdb_hash.c:79-97 | a top leaves its chain, whose neighbours and slot head close up; slot_count drops with the last one |
| `HashIndex.HashIndex.PushTop` | src/core/xdb_hash.c:99-117 | a top goes to the head of a chain; slot_count rises with the first one |
| `HashIndex.HashIndex.GrowSlots` | src/core/xdb_hash.c:138-145 | twice as many slots, and the whole index valid again |
| `HashIndex.HashIndex.FindTop` | src/core/xdb_hash.c:173-190 | the top with a key and a hash word, or none when no row has both |
| `HashIndex.HashIndex.AnyVisible` | src/core/xdb_hash.c:173-198 | whether a connection sees the top or any of its siblings |
| `HashIndex.HashIndex.AddSibling` | src/core/xdb_hash.c:199-211 | a row becomes the first sibling of its key's top |
| `HashIndex.HashIndex.AddTop` | src/core/xdb_hash.c:160-172 | a row with a new key becomes a top |
| `HashIndex.HashIndex.RemoveTop` | src/core/xdb_hash.c:256-278 | a top without siblings leaves |
| `HashIndex.HashIndex.RemoveSibling` | src/core/xdb_hash.c:256-289 | a first or later sibling leaves its list |
| `HashIndex.HashIndex.RemovePromoting` | src/core/xdb_hash.c:290-319 | the first sibling takes the top's place in the chain and the rest of the siblings |
| `HashIndex.HashIndex.Role` | src/core/xdb_hash.c:250-292 | the three link words tell whether a row id is indexed and in which of its four roles |
| `HashIndex.HashIndex.constructor` | src/core/xdb_hash.c:476-525 | an empty index over nodes with zero links |
| `HashIndex.CountsExact` | src/core/xdb_hash.c:164-224 | row_count, node_count and slot_count are the numbers of rows, of distinct keys and of slots in use |
| `HashDup.QueryDup` | src/core/xdb_hash.c:397-442 | the first top with the key's hash word if it has the key and is visible, else the first visible sibling of that top, else none |
| `HashDup.StopsFirst` | src/core/xdb_hash.c:412-431 | the top at which the search stops is the first one with the key's hash word in the chain of the slot that the word names |
| `HashDup.DuplicateHashed` | src/core/xdb_hash.c:419-438 | an answer is a visible row with the key of the top at which the search stops |
| `HashDup.RightWhen` | src/core/xdb_hash.c:419-438 | whatever is visible, the search tells whether the key is, exactly when it stops at a row with the key or nowhere, or no row has the key and the row it stops at has no siblings |
| `HashDup.NoClashRight` | src/core/xdb_hash.c:419-438 | without another key of that hash word the search finds a visible row with the key or says there is none |
| `HashDup.WrongRow` | src/core/xdb_hash.c:432-438 | a sibling of another key is taken for a duplicate |
| `HashDup.Missed` | src/core/xdb_hash.c:419-440 | a row behind a top of another key is overlooked |
| `HashDup.OneOverlooked` | src/core/xdb_hash.c:419-440 | of two keys with one hash word, each of one row, the search overlooks one |
| `HashRows.GroupOfKey` | src/core/xdb_hash.c:173-211 | the rows with a key are its top and that top's siblings |
| `HashRows.NotInSlot` | src/core/xdb_hash.c:173-190 | a key that no top of its slot has is nowhere in the index |
| `HashRows.TopPromoted` | src/core/xdb_hash.c:290-319 | promotion keeps every list, hash word and slot right |
| `HashRows.UsedBounded` | src/core/xdb_hash.c:138-145 | slots in use never outnumber tops, so doubling stays within 32 bits |
| `HashSlots.WhereTo` | src/core/xdb_hash.c:76-77 | a top of the chain being walked belongs there or one old slot count further up |
| `HashBits.MaskKeepsLowBits` | src/core/xdb_hash.c:76-76 | masking with a power of two less one is the remainder by that power |
| `HashBits.OneBitMore` | src/core/xdb_hash.c:76-77 | with one bit more a hash value keeps its slot or moves up by the old slot count |
| `HashLink.ChainsSwapped` | src/core/xdb_hash.c:290-319 | promotion keeps every chain linked and every top in one place |
| `Store.Store.Alloc` | src/core/xdb_store.c:290-326 | hands out an id that is not live, from the head of the free list or past the last one; doubles the room when it must, and fails only when it cannot |
| `Store.Store.Release` | src/core/xdb_store.c:210-234 | the block goes to the tail of the free list, and only it stops being live |
| `Store.LivePartition` | src/core/xdb_store.c:210-326 | live and free ids partition 1 to blk_maxid, so the live ones number blk_maxid less the free ones |
| `Store.HeadTaken` | src/core/xdb_store.c:312-319 | taking the head keeps the list acyclic and ending at its tail |
| `Store.TailPut` | src/core/xdb_store.c:220-228 | putting a block at the tail keeps the list acyclic and ending at its tail |
| `Table.Table.Insert` | src/core/xdb_crud.c:3063-3151 | a new row in its writer's view only; refused exactly when no block is left, or the index is unique and the writer sees that key; refusal changes no view; no other connection's entry changes |
| `Table.Table.Delete` | src/core/xdb_crud.c:3174-3212 | the row leaves its writer's view only: a new row at once, a committed one at commit; no other connection's entry changes |
| `Table.Table.UpdDel` | src/core/xdb_crud.c:3214-3232 | the first half of an update: the row leaves its writer's view; no other connection's entry changes |
| `Table.Table.Update` | src/core/xdb_crud.c:3234-3372 | refused, nothing changed, exactly when an indexed column is set under a unique index and the duplicate search answers with another row; in place for a new row whose key is not under a unique index, otherwise out and in again; when the second half is refused the row stays out of the view |
| `Table.Table.Replace` | src/core/xdb_crud.c:3316-3364 | the second form of an update: the row goes, and its new version comes exactly when there is room and its key is not seen |
| `Table.Table.DuplicateRight` | src/core/xdb_crud.c:3288-3300 | without a clash of hash words the search before an update answers with a visible row of the key, or that there is none |
| `Table.Table.OnlyRoom` | src/core/xdb_crud.c:3288-3331 | then the insert that completes an update can only fail for lack of room |
| `TableLost.UpdateLost` | src/core/xdb_crud.c:3330-3331 | an update whose insert is refused reports success and leaves neither the old row nor the new one |
| `TableLost.LostForRoom` | src/core/xdb_crud.c:3330-3331 | a table built by inserts, full and unable to grow, in which a committed row is lost so |
| `TableLost.LostForClash` | src/core/xdb_crud.c:3288-3331 | a table of two INT key columns, with room left, in which a committed row is lost so |
| `Table.Table.Commit` | src/core/xdb_trans.c:245-331 | every view is then what the writer saw; index and blocks of deleted rows are gone |
| `Table.Table.Rollback` | src/core/xdb_trans.c:342-388 | the committed rows stay, the writer's changes go; index membership and blk_alloc are those of the committed rows alone |
| `Table.Table.MarkRows` | src/core/xdb_trans.c:245-259 | new rows turn from TRANS to COMMIT, nothing else changes |
| `Table.Table.DropRows` | src/core/xdb_trans.c:261-274 | the rows of a set leave the index and the store, nothing else changes |
| `Table.Table.Begin` | src/core/xdb_trans.c:390-409 | starts a transaction; an open one is committed first |
| `Table.Table.WrLock` | src/core/xdb_trans.c:151-193 | takes the table's write lock, with a transaction when none is open; no other connection's entry changes |
| `Table.Table.SeesItsView` | src/core/xdb_trans.h:146-168 | for every connection in every reachable state, control bits and row sets give the view it is promised |
| `Table.Table.NothingElse` | src/core/xdb_trans.c:245-388 | with nobody writing, index membership and blk_alloc are those of the committed rows |
| `Table.Table.Lookup` | src/core/xdb_hash.c:355-391 | a query through the index gives exactly the rows with the key that the connection sees, each once, when the values hash as rows do; none otherwise |
| `TableRows.WhoSees` | src/core/xdb_trans.h:146-168 | a committed row is seen by those that have not deleted it, a new one by its writer, any other by nobody |
| `TableRows.SeenLive` | src/core/xdb_trans.h:146-168 | a row that any connection sees is live |
| `TableRows.CommittedRows` | src/core/xdb_trans.c:277-296 | marking the new rows and dropping the deleted ones makes the committed rows the writer's view |
| `TableRows.RolledBackRows` | src/core/xdb_trans.c:342-357 | dropping the new rows leaves what everybody else saw |
| `TableRows.RowCame` | src/core/xdb_crud.c:3138-3143 | a row marked TRANS and noted as new is seen by its writer alone |
| `TableRows.RowNoted` | src/core/xdb_crud.c:3196-3198 | a committed row noted as deleted is hidden from its writer alone |
| `TableRun.ExecRow` | src/core/xdb_crud.c:3063-3372 | one row of a statement: an insert, delete or update makes exactly the events that `CmdSpec.RowMakes` gives for the state it finds |
| `TableRun.ExecStatement` | src/core/xdb_sql.c:69-99 | a statement takes the lock or waits, makes the events of its rows in order, and commits exactly when its transaction is its own |
| `TableRun.ExecCommit` | src/core/xdb_sql.c:100-105 | COMMIT, and BEGIN in a transaction, commit when the connection has the lock |
| `TableRun.ExecRollback` | src/core/xdb_sql.c:106-108 | ROLLBACK rolls back when the connection has the lock |
| `TableRun.ExecAll` | src/core/xdb_sql.c:69-108 | any commands of any connections make, command by command, the events that `CmdSpec.CommandMakes` gives for the state each finds; together they are a run of the promise, no step of it by a connection that gave no command |
| `CmdSpec.RowMeans` | src/core/xdb_crud.c:3063-3372 | what an insert, a delete or an update leaves its writer to see: the row, fresh or in place, exactly when ids and room remain and the key is free; everybody else's rows stay |
| `CmdSpec.EndMeans` | src/core/xdb_trans.c:277-388 | at COMMIT or BEGIN everybody gets the writer's rows, at ROLLBACK the writer loses its changes |
| `CmdSpec.InsertArrives` | src/core/xdb_sql.c:69-99 | an INSERT outside a transaction: the row is committed for everybody to see, when ids and room remain and its key is free |
| `CmdSpec.DeleteArrives` | src/core/xdb_sql.c:69-99 | a DELETE outside a transaction: the row is gone for everybody |
| `CmdSpec.CommandsFacts` | src/core/xdb_sql.c:69-108 | commands that fit the relation are a run of the promise; a connection that gives none has no event and keeps its entry; a transaction that only runs statements keeps the lock |
| `TableRun.Isolation` | src/core/xdb_trans.h:146-168 | over any commands of others, the rows that control bits and row sets show a connection stay as they were: while it holds the lock; when none of the commands commits the table; and whenever the commands only begin outside transactions, run statements that do not commit by themselves, and roll back |
| `TableRun.RollbackLeaves` | src/core/xdb_trans.c:342-388 | from BEGIN to ROLLBACK, whatever the transaction did and others tried, every connection sees what was committed at BEGIN; index membership and blk_alloc are those of BEGIN |
| `TableRun.CommitShows` | src/core/xdb_trans.c:277-331 | from BEGIN to COMMIT all others see what was committed at BEGIN, and from then on all see what the writer saw last; index membership and blk_alloc are those of these rows |
| `Bitmap.XdbBmp.Set` | src/lib/xdb_bmp.c:295-325 | one member more, every summary word exact |
| `Bitmap.XdbBmp.Clr` | src/lib/xdb_bmp.c:327-362 | one member less, every summary word exact, empty blocks gone |
| `Bitmap.XdbBmp.Get` | src/lib/xdb_bmp.c:364-383 | membership |
| `Bitmap.XdbBmp.Iterate` | src/lib/xdb_bmp.c:268-293 | calls back exactly the members, strictly ascending |
| `Bitmap.SetLv1` | src/lib/xdb_bmp.c:305-322 | a bit is set in a level-1 block and its words stay exact |
| `Bitmap.ClrLv1` | src/lib/xdb_bmp.c:334-354 | a bit is cleared in a level-1 block, and a level-2 block that becomes empty goes |
| `Bitmap.IterateLv1` | src/lib/xdb_bmp.c:230-266 | the members of a level-1 block, strictly ascending |
| `Bitmap2.Lv2Bmp.Set` | src/lib/xdb_bmp.c:186-200 | one member more, count exact, whatever the leaf word held before |
| `Bitmap2.Lv2Bmp.Clr` | src/lib/xdb_bmp.c:202-217 | one member less, count exact |
| `Bitmap2.Lv2Bmp.Get` | src/lib/xdb_bmp.c:219-228 | membership |
| `Bitmap2.Lv2Bmp.Iterate` | src/lib/xdb_bmp.c:112-157 | calls back exactly the members, strictly ascending |
| `Bitmap2.Lv2Bmp.Init` | src/lib/xdb_bmp.c:159-164 | empty, with any leaf words |
| `BitWord.Bits` | src/lib/xdb_bmp.c:121-125 | the set bits of a word, ascending, by way of its non-zero bytes |
| `Like.PatternMeans` | src/lib/xdb_str.c:68-127 | what a percent sign, an underscore, a backslash with a character, and any other character stand for in front of a pattern |
| `Like.SameMeans` | src/lib/xdb_str.c:104-110 | without regard to case the letters at equal places of the two alphabets are the same, and no other two characters |
| `Like.Like` | src/lib/xdb_str.c:68-127 | for every pattern and every non-empty subject, true exactly when the pattern matches; the flag comes back set only when the pattern matches no end of the subject |
| `Like.AfterPercent` | src/lib/xdb_str.c:80-91 | trying the rest of a pattern at every character, given up as soon as it is known to match nowhere |
| `Like.StrLike` | src/lib/xdb_str.c:130-134 | agrees with the pattern's meaning exactly unless the subject is empty and the pattern is percent signs only |
| `Like.NowhereBefore` | src/lib/xdb_str.c:84-91 | when what follows a percent sign matches nowhere further on, the whole pattern matches nowhere further on |
| `Like.PercentMatchesEmpty` | src/lib/xdb_str.c:68-127 | the simplest pattern and subject where code and meaning differ |
| `WalLog.Wal.Iterate` | src/core/xdb_wal.c:316-367 | calls back for exactly the records of the intact commits in the log, in order, up to the first unknown table of each; stops at the zero length, at a commit that does not lie within the log, and at one whose checksum is another; returns the last id read |
| `WalLog.DamageStops` | src/core/xdb_wal.c:329-348 | when the rows of a commit are damaged and their checksum with them, reading stops there: the commits before it are read, it and those after it are not |
| `WalLog.Wal.Commit` | src/core/xdb_wal.c:236-274 | the records collected become one commit with the next id behind the others; none makes no commit |
| `WalLog.Wal.LogNew` | src/core/xdb_wal.c:131-174 | a new-row record behind those collected |
| `WalLog.Wal.LogDel` | src/core/xdb_wal.c:176-199 | a delete record behind those collected |
| `WalLog.Wal.Flush` | src/core/xdb_wal.c:285-300 | an empty log, its first header cleared, its commit id kept |
| `WalCodec.RecRead` | src/core/xdb_wal.c:140-165 | a record is its length, its row id with the delete flag, its table and its contents, word by word, and is read back so |
| `WalCodec.HeaderRead` | src/core/xdb_wal.h:35-41 | a commit header is length, id and time of 64 bits each, a checksum and a reserved word |
| `WalCodec.LogAppend` | src/core/xdb_wal.c:236-272 | appending a commit appends its words |
| `WalLog.KnownStops` | src/core/xdb_wal.c:330-352 | the records taken of a commit are those before the first one of an unknown table |
| `WalLog.SegmentFirst` | src/core/xdb_wal.c:316-360 | the header and rows of the next commit are where the length of the last one says |
| `WalRedo.RedoIsCommit` | src/core/xdb_wal.c:202-222 | redo, deletions first, does what commit, new rows first, did: exactly when no row is both new and deleted |
| `WalRedo.RedoRecovers` | src/core/xdb_wal.c:369-420 | redoing the log of any run of commits from a state that differs only in logged rows gives the commits' rows; again changes nothing |
| `WalRedo.RedoTwice` | src/core/xdb_wal.c:369-420 | redo is idempotent on every state |
| `WalRedo.RedoForgets` | src/core/xdb_wal.c:369-420 | the result on logged rows does not depend on what was there |
| `WalPair.LogPair.Commit` | src/core/xdb_wal.c:224-283 | a commit goes behind all others, ids counting up by one |
| `WalPair.LogPair.Switch` | src/core/xdb_wal.c:493-531 | with an empty backup and commits in the active log the two change places, and the new active log is empty; otherwise both logs stay; the order of commits is kept |
| `WalPair.LogPair.EndFlush` | src/core/xdb_db.c:386-399 | clearing the backup loses no commit that the tables lack |
| `WalPair.LogPair.Recover` | src/core/xdb_wal.c:422-458 | redoes backup then active, which is all logged commits in commit order, sets the commit id to that of the last commit found, even when the ids kept in the logs are old, and clears both logs once the tables hold all commits |
| `WalPair.LogPair.FlushDb` | src/core/xdb_db.c:375-402 | a flush removes from the logs exactly the commits that the backup held, or, when it held none, those of the active log |
| `WalPair.LogPair.NoneLost` | src/core/xdb_db.c:375-402 | at every step of every flush each commit is in the tables or in a log |
| `WalPair.LogChange` | src/core/xdb_wal.c:202-222 | a table's records are its deletions, then its new rows |
| `WalPair.RecoveryIsCommits` | src/core/xdb_wal.c:422-438 | recovery gives the rows that the logged commits gave |
| `TableLog.ChangeOf` | src/core/xdb_wal.c:202-222 | the deleted and the new rows of a transaction, each once, the new ones as their writer sees them |
| `TableLog.ChangeIsCommit` | src/core/xdb_wal.c:202-222 | no row of a valid table is both, and the change applied to the committed rows gives the rows that commit makes everybody see |
| `TableLog.OthersStay` | src/core/xdb_wal.c:202-222 | the rows of other tables stay |
| `TableLog.CommitLogged` | src/core/xdb_trans.c:323-331 | a commit, written to the log first, keeps the logs able to recover the table |
| `TableLog.FlushTable` | src/core/xdb_db.c:375-402 | so does a flush: the commits of the backup log, or else of the active one, go, and the tables it wrote are a state to recover the others from |
| `TableLog.RecoverTable` | src/core/xdb_wal.c:422-458 | recovery gives the table's committed rows, from any state that differs only in logged rows |
| `Escape.EscapeMeans` | src/core/xdb_sql.c:540-558 | what is written for each character |
| `Escape.EscapeStr` | src/core/xdb_sql.c:531-565 | the text of a value, up to its length or its first NUL |
| `Escape.LexSpells` | src/parser/xdb_token.c:216-241 | a literal is read exactly when the text spells it, piece by piece: a plain character for itself, a backslash with n, r or t for newline, return or tab, with a quote, backslash, percent sign or underscore for that |
| `Escape.Tokenize` | src/parser/xdb_token.c:212-248 | the literal that the text spells is left in place with its length; it fails exactly when the text spells none; nothing outside the literal changes |
| `Escape.Compact` | src/parser/xdb_token.c:216-241 | characters are moved forward as they are read, the write position never past the read position |
| `Escape.RoundTrip` | src/core/xdb_sql.c:531-565 | reading what was written gives the value back, whatever follows |
| `Escape.WriteAndRead` | src/core/xdb_crud.c:2905-2912 | a value written between quotes and tokenized in place comes back with its bytes and its length |
| `OrQuery.SqlQuery` | src/core/xdb_crud.c:2351-2393 | each row once; through indexes exactly the rows that some branch reaches, by a full scan exactly those that some branch holds of; the two are the same when every branch is right for the first index that serves it, as it is when the last filter on each index column satisfies the others and hashes as a row does |
| `OrQuery.IndexQuery` | src/core/xdb_crud.c:2354-2369 | every visible row that some branch's index route finds, each once |
| `OrQuery.IdxQuery` | src/core/xdb_hash.c:335-395 | adds the visible rows with the key that pass the leftover filters, none when the values do not hash as rows do |
| `OrQuery.RightExactly` | src/parser/xdb_parser_dml.c:663-726 | a branch is right of all rows that the columns can hold exactly when: no such row passes the leftover filters; or some row can be reached and the last filter on each index column satisfies the others; or none can and no equality value on some index column meets all filters there |
| `OrQuery.SoundIsScan` | src/parser/xdb_parser_dml.c:663-726 | a sound branch reaches exactly the rows all its filters hold of |
| `OrQuery.OnlyAgreeing` | src/parser/xdb_parser_dml.c:709-719 | with values that the columns can hold and that hash as rows do, a branch is right of all rows exactly when the last filter on each index column satisfies the others, provided some row passes the leftover filters |
| `OrQuery.OnlyUnasked` | src/core/xdb_hash.c:335-368 | with other values it is right exactly when some index column has no equality that meets all its filters with a value the column can hold |
| `OrQuery.BoundUnsigned` | src/core/xdb_crud.c:696-795 | a number bound for an indexed unsigned column: the route finds a row that the filter does not hold of |
| `OrQuery.OnlyHashed` | src/core/xdb_hash.c:335-368 | with filters that agree and values that the columns can hold it is right exactly when the values hash as rows do |
| `OrQuery.WideSound` | src/core/xdb_crud.c:1208-1235 | with index columns of 32 or 64 bits and signed values the values always do |
| `OrQuery.FullScan` | src/core/xdb_crud.c:2371-2392 | every visible row that some branch holds of, every visible row when there are no filters |
| `OrQuery.AnyMatch` | src/core/xdb_crud.c:2371-2392 | a row passes when there is no branch or all filters of some branch hold of it |
| `OrQuery.ParseWhere` | src/parser/xdb_parser_dml.c:923-937 | indexes are used exactly when every branch has one that serves it |
| `OrQuery.RowSet.Add` | src/core/xdb_crud.c:2171-2213 | a row is in the set; with a bitmap never twice |
| `Filters.FindIdx` | src/parser/xdb_parser_dml.c:663-726 | the first index whose columns all have an equality; its key and the filters left |
| `Filters.RowAndMatch` | src/core/xdb_crud.c:696-887 | whether all filters hold of a row |
| `Filters.HoldsMeans` | src/core/xdb_crud.c:696-887 | comparison by comparison, for signed columns and values: equalities are exact, and an order comparison says what it means when the difference fits in 64 bits and the opposite when not; for unsigned columns or values no filter holds |
| `Filters.RouteIsScan` | src/parser/xdb_parser_dml.c:709-719 | with consistent filters the index route finds exactly the rows all filters hold of |
| `Filters.OnlyConsistent` | src/parser/xdb_parser_dml.c:709-719 | and only then, for rows and values that the columns can hold, provided some row passes the leftover filters |
| `Filters.SomeRow` | src/core/xdb_crud.c:696-887 | some row that the columns can hold has all filters hold exactly when on each index column one equality's value, which fits it, meets all filters there |
| `Filters.LastIsConsistent` | src/parser/xdb_parser_dml.c:709-719 | consistency is that the last filter on each index column satisfies the others |
| `Filters.OnceAgrees` | src/parser/xdb_parser_dml.c:709-719 | filtering each index column once is enough exactly when the index columns and the values on them are signed |
| `Filters.OnceIsConsistent` | src/parser/xdb_parser_dml.c:709-719 | and so makes the route sound |
| `Filters.TwoEqualities` | src/parser/xdb_parser_dml.c:709-719 | two equalities on one index column: the route finds a row that fails a filter |
| `KeyHash.RowHash` | src/core/xdb_crud.c:1208-1299 | the row's hash, which starts over while it is 0, is modulo 2^64 the polynomial in 17 whose coefficients are the bits of its columns |
| `KeyHash.ValHash` | src/core/xdb_crud.c:1397-1433 | the hash of a list of values is that polynomial with the 64 bits of signed values as coefficients, 0 for values of an unsigned type |
| `KeyHash.OneHash` | src/core/xdb_crud.c:1208-1433 | both give one 32-bit word when every column's low bits agree |
| `KeyHash.TwoHashes` | src/core/xdb_crud.c:1208-1433 | with exactly one column whose low bits differ they never do |
| `KeyHash.Widths` | src/core/xdb_crud.c:1217-1235 | for every column type, in numbers: what it can hold, which bits of it are hashed, and what can be read of it |
| `KeyHash.ReadOf` | src/core/xdb_crud.c:174-207 | what a comparison reads of a column that holds a number: an unsigned one above half its range as a negative one |
| `KeyHash.BitsOfMinusOne` | src/core/xdb_crud.c:1217-1235 | of -1 all bits of the column are hashed |
| `KeyHash.ReadFits` | src/core/xdb_crud.c:174-207 | what a comparison reads of a column has the same bits, and is the number itself exactly up to half the range |
| `KeyHash.SameBitsWhen` | src/core/xdb_crud.c:1217-1235 | the low bits of row and value agree, for a signed value, in columns of 32 and 64 bits always and in narrower ones when it is not negative; for a value of an unsigned type exactly when its low 32 bits are 0 |
| `KeyHash.FoundByLiteral` | src/parser/xdb_parser_dml.c:838-870 | for every column type, which numbers written in a statement find the rows that hold them |
| `KeyHash.FoundByInt64` | src/core/xdb_sql.c:625-655 | the same for numbers bound as signed ones |
| `KeyHash.FoundByUint` | src/core/xdb_sql.c:663-667 | for numbers bound as unsigned 32-bit ones |
| `KeyHash.FoundByUint64` | src/core/xdb_sql.c:669-673 | for numbers bound as unsigned 64-bit ones |
| `KeyHash.OneColumn` | src/core/xdb_crud.c:1208-1433 | the words of a one-column index agree exactly when the column's and the value's low bits do |
| `KeyHash.WordsKept` | src/core/xdb_hash.c:149-149 | the words are the low 32 bits of the two hashes |
| `IntIndex.FindsKey` | src/core/xdb_hash.c:338-339 | signed values hash as the rows that read as them unless a narrow column is negative, in an index of any such columns |
| `IntIndex.QueryValues` | src/core/xdb_hash.c:335-395 | visits exactly the rows that read as the values, each once, when the two hashes of the source agree on them; none otherwise |
| `IntIndex.AddAndQuery` | src/core/xdb_hash.c:126-395 | a row added to a one-column index is found by a value exactly when the column reads as the value and their bits agree |
| `IntIndex.NegativeMissed` | src/core/xdb_crud.c:1226-1230 | a row with -1 in a TINYINT column is indexed and not found |
| `IntIndex.UnsignedFound` | src/parser/xdb_parser_dml.c:834-866 | a row with 5 in an INT UNSIGNED column is found by a bound 5 and not by a written one |

## Left out

- File mapping, growing and syncing: storage is a growable sequence, growth appends blocks with any contents (nodes and slots zeroed), and pointers that go stale across a remap do not exist.
- LT, LE, GE and GT queries on the red-black index.
- The duplicate search of the red-black index: a table has one hash index.
- Tables with several indexes, and the undo of a failed insert across them: one table with one hash index.
- Commit and rollback over several tables and databases: one table; the bitmap of changed tables is modelled on its own.
- The row sets of a connection are sets in `Table`; that the bitmap is a set is proved in `Bitmap`.
- Autocommit on memory tables, which takes no lock, and the storage and database locks: a writer holds the table lock, and a method is one atomic step.
- Waiting: a command that must wait for the lock does nothing in a run, and is not taken up again.
- The rows of an UPDATE or DELETE statement are given by row id; that a query finds them is proved apart from it.
- Time to live, triggers, logging of changes to subscribers and variable-length columns in rows; a row is a key and its other columns.
- The free list's link shares the first bytes of a freed row in the original; here it is a field of its own.
- Allocation failure inside bitmaps and logs, and the fixed pools of bitmap blocks.
- Key types other than integers; hashing and comparing of CHAR, JSON, INET, MAC and floating-point columns.
- REGEXP, BETWEEN, LIMIT, OFFSET, ORDER BY and joins.
- Log capacity: the log has room. Sync sizes and modes, timestamps from a clock, and the flush that a commit starts itself when the log is large, which runs before its rows are marked.
- A flush that finds nothing changed since the last one returns at once in the original; here it always switches and writes.
- Redo touches rows only: the free list and the indexes are rebuilt elsewhere. Tables dropped since a commit are covered by `WalLog.Known`.
- The checksum of a log and the contents of a row in it are any function of what they are computed from. A commit whose stored checksum is 0 is read unchecked in the original; here the stored word is always the checksum of the rows.
- Recovery reads both logs whole; that a torn log is read up to its first torn commit is proved of one log on its own.
- TableRun.ExecStatement: a statement that must wait for the lock is dropped; the original blocks and then runs it.
- RbQuery.QueryEq: gives the rows visited; the tests made of each are in `RbVisible.QueryRows`, which makes them after the walk instead of during it.
- RbTree.RbTree.Add: uniqueness looks at the tree node with the key only, as the code does; when that is right is `RbVisible.RefusalRight`.
- HashIndex.HashIndex.Query: gives the rows visited; visibility and leftover filters are in `OrQuery.IdxQuery` and `Table.Lookup`.
- HashIndex.HashIndex.constructor: xdb_hash_init clears counters and slots and leaves node words; the model starts from nodes with zero links, as a new index file has.
- WalLog.Wal.Commit: does not model sync sizes, sync modes and the flush of a large log.
- WalPair.LogPair.NoneLost: that the tables are written is one ghost step; `TableLog.FlushTable` says what state they are then in.
- WalPair.LogPair.FlushDb: has no early return when nothing has changed since the last flush.
- WalPair.LogPair.Recover: takes the writing of the tables as one step, starts with no flush under way, and with both logs whole.
- WalRedo.RedoIsCommit: is about changes as the log has them; `TableLog.ChangeIsCommit` ties them to a table's commit.
- WalRedo.RedoRecovers: covers row contents only, not the index and free-list updates; `TableLog.RecoverTable` ties it to a table.
- WalRedo.RedoTwice: covers row contents only.
- WalRedo.RedoForgets: covers row contents only.
- WalPair.RecoveryIsCommits: likewise, with `TableLog.RecoverTable`.
