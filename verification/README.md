# Contiki application protocols: verified models

This project models four components of the repository and proves what they promise.
Each component is modelled twice: as code that works on its own state (classes with
arrays and fields, loops with invariants), and as functions on values that specify
that code. The methods are proved equal to the functions, and the properties of whole
runs, round trips and refinements are proved about the functions.

* **Antelope query engine.** `Lvm` is the bytecode of conditions with its encoding,
  meaning and byte interpreter; `LvmMachine` is the virtual machine with its buffer,
  instruction pointer and name table. `AqlWhere` describes WHERE clauses and the code
  that the parser emits for them, `AqlGrammar` says which token sequences the parser
  accepts and with which result, `AqlRendering` which of them are clauses, `AqlParser` is
  the recursive-descent parser that shifts bytes inside the buffer, and `AqlCompile` joins
  parser and machine. `LvmDerive` is the derivation of value ranges. `InlineIndex` is the
  binary-search index, `RelationSelect` the SELECT that runs on an index or a scan, and
  `RelationJoin` the resumable join. `MaxHeap` and `MaxHeapIndex` are the bucketed interval tree.
* **Deluge.** `Deluge` has the message handlers, a network of N nodes with the set of
  all messages ever sent, and the invariant of an update wave; `DelugeSpread`
  how the update gets from node to node, `DelugeRounds` how often nodes talk, and
  `DelugeNode` runs the handlers on a node's own arrays and fields.
* **CoAP draft 12.** `CoapOptions` and `CoapValues` are the option format,
  `CoapMessage` the message codec with its round trip, `CoapWire` what any list of
  options stands for, `CoapSerializer` and `CoapParser` the same codec in place on buffers. `WellKnownCore` is the windowed
  rendering of `/.well-known/core` with the engine's block trimming. `Transactions` and
  `TransactionPool` are the retransmission layer.
* **tunslip.** `Checksum` has the Internet checksum, the packet check, the incremental
  rewrite and the packets for DHCP clients; `Slip` has the framing, the reader and the
  buffered writer, and `Bridge` a writer and a reader joined by a serial line.

`Bytes` and `Wrappers` hold the octet type and the option type.

C integers are mathematical integers with the ranges of their types stated where they
matter: 16-bit sums in `Checksum`, 32-bit integers in `CoapValues`, 32-bit row ids in
`InlineIndex`, bytes everywhere. Storage is an in-memory array that does not fail.

Where the code does not do what one would expect, the model follows the code, and the
exact condition is proved:

* A side of a comparison with two or more arithmetic operations is compiled wrongly
  (`AqlWhere.WhereCodeEncodes` is an equivalence, `AqlWhere.LongChainFails` a case).
* When a comparison without parentheses is the first thing behind AND or OR that cannot be
  read, `parse_where` returns 0, which its callers take for success
  (`AqlGrammar.ZeroExactly`; `a = 1 AND` in `AqlGrammar.DanglingConnective`).
* A token of any kind between an arithmetic operator and the operand behind it is skipped
  (`AqlRendering.RendersExactly`; `a + + 1 = 2` in `AqlRendering.SpareOperator`).
* Parentheses must be closed twice (`AqlRendering.SideInParentheses`,
  `AqlRendering.ArmInParentheses`), and strings and floats are accepted as operands
  without code (`AqlRendering.OtherOperands`).
* A comparison with the constant on the left, one of two constants, and an OR of different
  variables are derived unsoundly except in the cases of
  `LvmDerive.ConstantOnLeftExactly`, `LvmDerive.TwoConstantsExactly` and
  `LvmDerive.OrArmsExactly`.
* The inline index looks behind the relation exactly when a bound of the range is below
  the first value or the relation is empty. The model calls that outcome `Stray`, and a
  range with only an upper bound always has it (`InlineIndex.UnboundedBelowStrays`).
  Its error code is unsigned, so callers do not see it; an absent equality key makes a
  SELECT end with DB_FINISHED.
* `select_index` never updates the smallest range, so it takes the last candidate.
* The bottom level of the MaxHeap never receives pairs, which is why the sharp capacity
  bound is 8 * 128 pairs.
* A Deluge node that is collecting an update answers requests for the version before it
  with wrongly labelled packets (`Deluge.OldRequestMislabels`).
* The dispatcher of Deluge drops every profile whose first page has a version above 1
  (`Deluge.DispatchedExactly`). Since a drop is a loss, `Deluge.Dissemination` covers the
  program with and without that test; with it, only updates to version 1 spread
  (`Deluge.ProfileHeardExactly`, `DelugeSpread.SpreadsExactly`).
* A Deluge node in RX stops asking with every completed page until it hears the next
  summary (`DelugeRounds.PageStopsAsking`), and what it takes for its oldest data need not
  be (`DelugeRounds.OldestDataMissed`). A corrupted packet overwrites an intact one that is
  still counted (`DelugeRounds.CorruptedOverwrites`).
* The engine cuts the size of a requested block to a chunk but keeps the offset of the size
  asked for, so transfers in blocks of more than 128 bytes have gaps and wrong labels unless
  the string fits a chunk (`WellKnownCore.WholeTransfer`, `WellKnownCore.LabelExactly`,
  `WellKnownCore.SecondLargeBlock`). Clients that go on with the size of the first answer
  are safe (`WellKnownCore.AdoptedSize`).
* The handler of `/.well-known/core` announces more when the last block ends exactly with
  an attribute (`WellKnownCore.WholeTransfer`).
* Option jumps of 30 and more are read back under another number except where
  `CoapOptions.JumpAgreement` says so, and with 15 or more options the terminator is left
  in front of the payload (`CoapMessage.RoundTripExactly`).
* Numbering a packet whose header length field says 8 breaks its header sum
  (`Checksum.RewriteKeepsLongAccepted`), and a packet of fewer than 12 bytes can fail too
  (`Checksum.RewriteKeepsAccepted` for every length, `Checksum.ShortPacketExactly`).
* tunslip tests the don't-fragment flag in the byte order of its host, so on little-endian
  hosts it numbers other packets than it means to (`Checksum.NeedsIdExactly`).
* `list_remove` clears the link of the removed item, so `coap_check_transactions` stops at
  the first transaction that ends (`Transactions.AllServedExactly`,
  `Transactions.WalkStops`). What it leaves behind waits for the next timer event, of
  which there are always enough (`Transactions.RunWaiting`).
* A timer that was never set counts as expired. A check between creating and sending a
  transaction therefore sends it too early and spoils its schedule
  (`Transactions.CheckBeforeSend`, `Transactions.FourSendingsAtOnce`); the schedule is
  proved for the runs without such a check, and the callers create and send at once.

## Model

| member | source | states |
|---|---|---|
| MaxHeap.ChildrenPartition | apps/antelope/index-maxheap.c:428-442 | the two intervals that a split creates are non-empty, disjoint and together make up the parent's interval |
| MaxHeap.IntervalIsDyadic | apps/antelope/index-maxheap.c:225-260 | each array position stands for one dyadic interval: the j-th node of a level covers the j-th run of equally many keys, so siblings partition their parent |
| MaxHeap.CoveringNodeIsOnPath | apps/antelope/index-maxheap.c:262-292 | a node whose interval holds a key is the node of its level on the root path of that key, so intervals of one level are disjoint |
| MaxHeap.SlotDescends | apps/antelope/index-maxheap.c:225-260 | heap_insert of a child's interval, starting anywhere above it on the path, arrives at exactly the array position of that child |
| MaxHeap.HomeIsOnPath | apps/antelope/index-maxheap.c:454-461 | repeated heap_find ends at a non-empty node on the key's path, all of whose ancestors are non-empty, and cannot go further |
| MaxHeap.InsertCorrect | apps/antelope/index-maxheap.c:447-492 | insert_item keeps the tree invariant (ancestor-closed, exact dyadic intervals, every pair on its key's path, a non-empty child only below a full parent), stores exactly the given pair or nothing, and fails if and only if the eight buckets on the key's path are full |
| MaxHeap.CapacityBound | apps/antelope/index-maxheap.c:447-492 | while fewer than 8 * 128 pairs are stored, insert_item succeeds, whatever the hash function |
| MaxHeap.LookupFrom | apps/antelope/index-maxheap.c:709-739 | the search below a path node finds a key if and only if it is stored at that node or below |
| MaxHeap.LookupCorrect | apps/antelope/index-maxheap.c:691-744 | the first lookup of a key returns a value that was stored under it, and INVALID_TUPLE if and only if there is none |
| MaxHeap.LookupPicks | apps/antelope/index-maxheap.c:709-739 | of several values of a key a lookup returns the one stored first in the deepest bucket of the key's path that holds any |
| MaxHeap.RunInvariant | apps/antelope/index-maxheap.c:447-492 | after any sequence of insertions into a fresh index the invariant holds and the buckets hold, as a multiset, exactly the pairs whose insertion succeeded |
| MaxHeap.FirstInsertionsSucceed | apps/antelope/index-maxheap.c:69-76 | the first 1024 insertions into a fresh index all succeed, for any hash function and any keys |
| MaxHeap.RunLookup | apps/antelope/index-maxheap.c:668-750 | a lookup after any run returns a successfully inserted value of the key, or none exists |
| MaxHeap.ConstantHashHoldsAtMost | apps/antelope/index-maxheap.c:447-492 | the bound of 1024 is sharp: with a hash that sends all keys to one value no more than 1024 insertions ever succeed |
| MaxHeapIndex.MaxHeapIndex.HeapInsert | apps/antelope/index-maxheap.c:225-260 | the loop writes the interval into the first empty node of its descent, or nothing; nothing else changes |
| MaxHeapIndex.MaxHeapIndex.HeapFind | apps/antelope/index-maxheap.c:262-292 | the loop finds the node of the pair at the cursor that holds the hashed key, and the cursor of the next pair |
| MaxHeapIndex.MaxHeapIndex.BucketSplit | apps/antelope/index-maxheap.c:416-445 | opens exactly the two child intervals of a full bucket, or nothing if they exist already |
| MaxHeapIndex.MaxHeapIndex.SplitAndFind | apps/antelope/index-maxheap.c:471-482 | splitting a full bucket and searching on finds the child that covers the key, or fails at the bottom |
| MaxHeapIndex.MaxHeapIndex.InsertItem | apps/antelope/index-maxheap.c:447-492 | the imperative insertion does what the specification's Insert does, of which the invariant, capacity and lookup results are proved |
| MaxHeapIndex.MaxHeapIndex.BucketLoad | apps/antelope/index-maxheap.c:351-392 | a loaded bucket starts with its stored pairs; recomputing the number of free slots changes nothing observable |
| MaxHeapIndex.MaxHeapIndex.GetFirst | apps/antelope/index-maxheap.c:709-739 | walking the visited buckets from the bottom up finds the same value as the specification's top-down Lookup |
| Lvm.RunExpr | apps/antelope/lvm.c:165-219 | an encoded arithmetic expression evaluates to its strict meaning and is consumed exactly |
| Lvm.RunCond | apps/antelope/lvm.c:221-298 | an encoded condition (AND, OR, NOT, six relations, nested arithmetic) evaluates to its strict meaning, terminates, and advances ip by exactly the encoded length; a division by zero anywhere gives MATH_ERROR |
| Lvm.ExecuteEncoded | apps/antelope/lvm.c:379-404 | lvm_execute on a buffer that starts with an encoding returns the meaning of the tree, whatever follows in the buffer |
| Lvm.MathErrorExactly | apps/antelope/lvm.c:200-216 | the only run-time error is MATH_ERROR, and it occurs exactly when some division in the tree has a zero divisor, even in an operand that could not change the truth value |
| Lvm.ArithmeticValues | apps/antelope/lvm.c:195-216 | the operations on values: integer sum, difference and product, and the one quotient whose remainder is smaller than the divisor and is zero or has the sign of the dividend; there is none if and only if the divisor is zero |
| Lvm.RelationValues | apps/antelope/lvm.c:276-297 | the six relations are those of the order of the integers |
| Lvm.ConnectiveValues | apps/antelope/lvm.c:235-255 | AND, OR and NOT of two conditions that have truth values, and the first error otherwise |
| Lvm.OddConnective | apps/antelope/lvm.c:235-255 | an operator with the connective bit that is neither NOT nor AND counts as OR, and needs comparisons below it |
| Lvm.NoCondition | apps/antelope/lvm.c:379-404 | code that does not start with a comparison or connective gives EXECUTION_ERROR |
| Lvm.BadNodes | apps/antelope/lvm.c:165-215 | an argument that is neither operand nor arithmetic is a SEMANTIC_ERROR, an operator other than the four an EXECUTION_ERROR |
| LvmMachine.Machine.RegisterVariable | apps/antelope/lvm.c:441-460 | adds a name once, cut to the name length, while the table has room |
| LvmMachine.LongName | apps/antelope/lvm.c:441-460 | a name of more than twelve characters is registered cut and not found under its own name, so every use takes another slot |
| LvmMachine.Machine.SetVariableValue | apps/antelope/lvm.c:462-473 | changes the value of one named variable and no other |
| LvmMachine.Machine.ShiftForOperator | apps/antelope/lvm.c:329-348 | moves the code from a position up by one node in place, byte by byte preserved, and puts the end at the gap; a position behind the end is an error that changes nothing |
| LvmMachine.Machine.EvalArith | apps/antelope/lvm.c:165-219 | eval_expr, recursive with ip updated by every read, refines the byte interpreter |
| LvmMachine.Machine.EvalCondition | apps/antelope/lvm.c:221-298 | eval_logic, recursive with ip updated by every read, refines the byte interpreter |
| LvmMachine.Machine.Run | apps/antelope/lvm.c:379-404 | lvm_execute returns the status that the byte interpreter gives for any bytes at all |
| AqlWhere.WhereCodeEncodes | apps/antelope/aql-parser.c:290-447 | the code emitted for a chain c0 op1 c1 op2 c2 ... is the prefix encoding of the right-nested tree c0 op1 (c1 op2 (...)) if and only if every comparison side has at most one arithmetic operation |
| AqlWhere.LongChainFails | apps/antelope/aql-parser.c:311-345 | a concrete chain of additions that is true but compiles to code that is false |
| AqlWhere.ArithmeticTokens | apps/antelope/aql-parser.c:325-344 | which arithmetic each of the four operator tokens stands for |
| AqlWhere.RelationTokens | apps/antelope/aql-parser.c:364-390 | which relation of the two values each of the six comparison tokens stands for |
| AqlWhere.LinkTokens | apps/antelope/aql-parser.c:422-428 | AND and OR tokens combine the comparison in front of them with the whole rest |
| AqlGrammar.ZeroExactly | apps/antelope/aql-parser.c:402-447 | parse_where returns 0, which its callers take for success, if and only if the first comparison can be read and the first thing behind AND or OR that cannot be read is a comparison without parentheses |
| AqlGrammar.SyntaxErrorExactly | apps/antelope/aql-parser.c:402-447 | it returns SYNTAX_ERROR if and only if the first comparison cannot be read, or the first thing behind AND or OR that fails is a parenthesis around a clause that is an error or is not closed behind it; a parenthesised clause with result 0 is no error |
| AqlGrammar.OkExactly | apps/antelope/aql-parser.c:402-447 | it returns OK if and only if the first comparison and everything behind a connective can be read, up to a token that is no connective |
| AqlGrammar.DanglingConnective | apps/antelope/aql-parser.c:436-441 | the tokens of a = 1 AND give 0 with all of them consumed |
| AqlRendering.RendersExactly | apps/antelope/aql-parser.c:290-447 | a token sequence renders a clause if and only if it has no parentheses, strings or floats, is accepted to its end, and an operand follows every arithmetic operator; so the sequences that the compiler results are about are known from the tokens alone |
| AqlRendering.SpareOperator | apps/antelope/aql-parser.c:321-323 | a + + 1 = 2 is accepted to its end and renders nothing, because a refused operand is consumed before the side behind it is read |
| AqlRendering.SideInParentheses | apps/antelope/aql-parser.c:297-318 | a side in parentheses is read if and only if they are closed twice, since the first closing one is taken with the side |
| AqlRendering.ArmInParentheses | apps/antelope/aql-parser.c:430-436 | the same for a comparison in parentheses behind AND or OR |
| AqlRendering.OtherOperands | apps/antelope/aql-parser.c:267-288 | strings and floats are accepted as operands, although no code is emitted for them |
| AqlParser.WhereParser.ParseOperand | apps/antelope/aql-parser.c:267-288 | any token is consumed; an identifier or integer is registered and emitted, a string or float is accepted without emitting anything, anything else is refused |
| AqlParser.WhereParser.InsertNode | apps/antelope/aql-parser.c:325-344 | shifting and writing puts one node in front of the code that starts at a position, in place |
| AqlParser.WhereParser.ParseExpr | apps/antelope/aql-parser.c:290-348 | for every token sequence, parentheses included, the status and the position are those of the grammar on tokens; a side without parentheses also has its code appended, whatever its length |
| AqlParser.WhereParser.ParseComparison | apps/antelope/aql-parser.c:350-400 | for every token sequence the status and the position are those of the grammar; a comparison without parentheses also has its code appended behind the operator node that was left room for |
| AqlParser.WhereParser.ParseWhere | apps/antelope/aql-parser.c:402-447 | for every token sequence the status (OK, SYNTAX_ERROR or 0) and the position are those of the grammar and the buffer is not overrun; after a clause without parentheses the buffer starts with its code, each connective shifted in front of the last comparison, and the table holds its names |
| AqlParser.WhereParser.ParseLink | apps/antelope/aql-parser.c:431-441 | the comparison behind a connective is read as the grammar says, and in a clause without parentheses its code completes the right-nested chain |
| AqlCompile.FewNamesFit | apps/antelope/lvm.c:441-460 | clauses over at most four variables with short names always fit the variable table |
| AqlCompile.CompiledClauseRuns | apps/antelope/lvm.c:379-404 | executing the code that the parser left for a clause, under any values, gives the truth value or error of the right-nested tree |
| AqlCompile.CompileAndRun | apps/antelope/aql-parser.c:402-447 | compiler correctness end to end: parse once, with the status that the grammar gives, then for every row lvm_execute returns the tree's meaning on that row |
| LvmDerive.CreateIntersection | apps/antelope/lvm.c:496-537 | the loop over the derivation arrays gives the pointwise intersection |
| LvmDerive.CreateUnion | apps/antelope/lvm.c:539-580 | the loop over the derivation arrays gives the pointwise union, with its one-sided cases as they are |
| LvmDerive.DeriveComparison | apps/antelope/lvm.c:618-684 | the range of one comparison as the code derives it from operator and operands |
| LvmDerive.DeriveRelation | apps/antelope/lvm.c:582-687 | the recursive derivation over bytes refines the specification, including failure |
| LvmDerive.DeriveEncoded | apps/antelope/lvm.c:582-687 | deriving from the bytes of an encoded condition is deriving from the tree |
| LvmDerive.DeriveSound | apps/antelope/lvm.c:582-687 | if derivation succeeds for comparisons with the variable on the left whose OR arms constrain the same variables, every satisfying row has each derived variable in its range |
| LvmDerive.DeriveExact | apps/antelope/lvm.c:496-537 | for conjunctions a row lies in all ranges if and only if it satisfies the condition |
| LvmDerive.DeriveTight | apps/antelope/lvm.c:539-580 | for an OR of satisfiable conjunctions on the same variables each end of each range is the value of the variable in a row that satisfies the condition; as derivation is sound, the range is the least interval that holds all such values |
| LvmDerive.ConstantOnLeftExactly | apps/antelope/lvm.c:646-681 | a comparison with the constant on the left is derived soundly exactly for equality and for bounds that leave nothing, or only the bound, to satisfy |
| LvmDerive.TwoConstantsExactly | apps/antelope/lvm.c:633-681 | a comparison of two constants derives a range for the variable whose id is the low byte of the right one; that is sound exactly when there is no such variable, the comparison is false, or the range leaves nothing out |
| LvmDerive.OrArmsExactly | apps/antelope/lvm.c:539-580 | an OR of comparisons on two different variables is derived soundly exactly when each arm is unsatisfiable or the other arm's range leaves nothing out |
| LvmDerive.ConstantOnLeftFails | apps/antelope/lvm.c:646-681 | 5 < x derives a range that excludes the row with x = 9, which satisfies it |
| LvmDerive.DifferentArmsFail | apps/antelope/lvm.c:547-552 | x = 1 OR y = 2 derives ranges that exclude the row with x = 1 and y = 0, which satisfies it |
| InlineIndex.BinarySearch | apps/antelope/index-inline.c:103-151 | terminates on strictly increasing rows with 32-bit ids: finds the target's row if present, else the row just before or after its place or no tuple on an exact search; it leaves the relation if and only if the relation is empty or the target is below the first value |
| InlineIndex.Iterator.RangeSearch | apps/antelope/index-inline.c:153-181 | the cached ends are next to the places of the range's bounds and on them where they occur; an absent equality key leaves INVALID_TUPLE |
| InlineIndex.Iterator.GetNext | apps/antelope/index-inline.c:201-227 | the first call searches, the later calls hand out the cached rows in order and then INVALID_TUPLE |
| InlineIndex.Iterator.IndexGetNext | apps/antelope/index.c:304-330 | an equality search on a unique attribute stops after one row |
| InlineIndex.RangeCovered | apps/antelope/index-inline.c:153-181 | the rows between the two ends are all rows in [low, high], with at most one extra row at each end |
| InlineIndex.UnboundedBelowStrays | apps/antelope/index-inline.c:136-141 | a range without a lower bound always sends the search below row 0, unless the first value is the least long |
| RelationSelect.SelectIndex | apps/antelope/relation.c:630-663 | chooses the last of the relation's attributes, in the relation's own order, that is indexed and has a derived range, since the smallest range seen is never updated |
| RelationSelect.SelectedExactly | apps/antelope/relation.c:644-663 | the chosen attribute is the one behind which no other has both an index and a derived range |
| RelationSelect.SelectHandle.Open | apps/antelope/relation.c:665-709 | an opened select has an iterator over the range derived for the chosen attribute, or scans if there is none or its index is not ready |
| RelationSelect.SelectHandle.Process | apps/antelope/relation.c:734-845 | one call looks at one row, from the index or the scan, and emits it exactly if the condition is true on it |
| RelationSelect.IndexCovers | apps/antelope/relation.c:734-845 | when derivation is sound, every row that satisfies the condition lies between the ends that the index found |
| RelationSelect.AbsentValue | apps/antelope/relation.c:756-770 | when the range is one value that does not occur, no row satisfies the condition |
| RelationSelect.RunScan | apps/antelope/relation.c:734-845 | a scan emits exactly the rows on which the condition's meaning is true, in order |
| RelationSelect.RunIndexed | apps/antelope/relation.c:734-845 | an index run emits the matching rows among those of the index range, in order |
| RelationSelect.RunSelect | apps/antelope/relation.c:734-845 | index and scan agree: the emitted rows are exactly, and in the same order, those of a full scan, unless the search leaves the relation, which happens exactly when it is empty or an end of the range is below the first value |
| RelationSelect.StraysExactly | apps/antelope/relation.c:734-845 | for an OR of satisfiable conjunctions on the same variables the search leaves the relation if and only if that is empty or some satisfying row would come before its first one |
| RelationJoin.EquiJoinIsJoin | apps/antelope/relation.c:962-1056 | the reference join holds exactly the pairs of rows with equal values, each once and in left-row order |
| RelationJoin.JoinHandle.Process | apps/antelope/relation.c:962-1056 | one call of the coroutine, which may re-enter the inner loop, emits exactly the next pair of the join or finishes |
| RelationJoin.RunJoin | apps/antelope/relation.c:962-1056 | calling the join until DB_FINISHED emits exactly the equi-join when the right attribute is strictly increasing, up to the first left value below all right values |
| Deluge.PacketKeepsNodeInv | apps/deluge/deluge.c:430-497 | a packet with valid page and packet numbers keeps the node invariant: pages below current_rx_page complete, complete pages have all packet bits, version <= update_version, equality only with every page complete |
| Deluge.ProfileKeepsNodeInv | apps/deluge/deluge.c:523-579 | a profile keeps the same invariant while it empties the pages of which it announces a newer version |
| Deluge.RequestSameUpdate | apps/deluge/deluge.c:397-428 | a request changes what is to be sent only if it is for the node's own version and a page of the object, and nothing about reception |
| Deluge.MessagesKeepNodeInv | apps/deluge/deluge.c:581-615 | any sequence of dispatched messages keeps the node invariant |
| Deluge.AnyMessages | apps/deluge/deluge.c:225-237 | after any sequence of messages: version reaches update_version only when highest_available_page is the page count, and current_rx_page never passes the first incomplete page |
| Deluge.PacketAccepted | apps/deluge/deluge.c:452-489 | an accepted packet sets its bytes, its bit and, with the last bit, writes the page, moves on and possibly installs the version |
| Deluge.FullPageInWave | apps/deluge/deluge.c:465-489 | the page written with the last packet is the source's page, and the last page completes the source's file |
| Deluge.PacketInWave | apps/deluge/deluge.c:430-497 | every packet keeps the invariant of the update wave |
| Deluge.ProfileInWave | apps/deluge/deluge.c:523-579 | every profile keeps the invariant of the update wave |
| Deluge.HandleInWave | apps/deluge/deluge.c:581-615 | every delivered message keeps the invariant of the update wave |
| Deluge.RequestTimerInWave | apps/deluge/deluge.c:239-266 | a request asks for the new version whatever lies behind the page table, also when the timer is still armed after the last page |
| Deluge.TxTimerInWave | apps/deluge/deluge.c:346-395 | every packet that is sent in answer carries the source's bytes under the new version |
| Deluge.ProfileTimerInWave | apps/deluge/deluge.c:499-521 | a profile of the new version lists it for every page; a node still collecting announces only the prior version |
| Deluge.StepInWave | apps/deluge/deluge.c:239-579 | every step of N nodes (delivery from the set of all messages ever sent, timers, rounds) keeps the invariant |
| Deluge.RunInWave | apps/deluge/deluge.c:239-579 | every run of the network keeps the invariant of the update wave |
| Deluge.Dissemination | apps/deluge/deluge.c:239-579 | in every run of a wave, with loss, duplication and reordering, from any start in which the nodes have the old or the new version, whatever they are sending or waiting for: a node whose version is the update's holds exactly the source file, its complete pages are the source's, and every packet of the update ever sent carries the source's bytes |
| Deluge.NextWave | apps/deluge/deluge.c:239-579 | the nodes at the end of a wave, with their timers and pending transmissions as they are, are a start of the next wave as soon as no request of the finished one for a page is in flight |
| Deluge.EveryPacketUpdates | apps/deluge/deluge.c:430-497 | a node that is collecting and receives every packet of its missing pages in order ends with the update installed |
| DelugeSpread.AsksExactly | apps/deluge/deluge.c:239-266 | a collecting node asks, of the page it is receiving and in the update's version, for exactly the packets that it lacks |
| DelugeSpread.AnswersAll | apps/deluge/deluge.c:346-428 | a node that has the update takes up a request for any page of it and sends every packet asked for, as the source has it |
| DelugeSpread.RoundCompletesPage | apps/deluge/deluge.c:430-497 | the answer to a request, delivered in any order and with any repetitions, completes the page |
| DelugeSpread.SummaryArmsExactly | apps/deluge/deluge.c:311-342 | a summary makes a node ask if and only if it is of the version being collected, lists more complete pages than the node has and no more than there are, some listed page was not asked for within two rounds, and the noted data is older than one |
| DelugeSpread.CatchesUp | apps/deluge/deluge.c:239-579 | from every state of a wave there is a run of the network in which a collecting node gets the whole update from one that has it |
| DelugeSpread.Spreads | apps/deluge/deluge.c:239-579 | the same for every node of a wave, whether it has heard of the update or not |
| DelugeSpread.EveryNodeUpdated | apps/deluge/deluge.c:239-579 | from every state of a wave in which some node has the update there is a run after which every node has it |
| DelugeSpread.SpreadsExactly | apps/deluge/deluge.c:581-615 | an outdated node can get an update through the dispatcher if and only if that is version 1 |
| Deluge.OldRequestMislabels | apps/deluge/deluge.c:412-427 | why requests for a page under the prior version are excluded: a collecting node answers them for its incomplete page under the new version, and such a packet is right exactly where the old file agrees with the source |
| Deluge.DispatchedExactly | apps/deluge/deluge.c:606-611 | a profile as send_profile makes it passes the dispatcher's length test if and only if its first page has version 0 or 1, since the test takes that version for the size of an entry |
| Deluge.ProfileHeardExactly | apps/deluge/deluge.c:581-615 | an outdated node would start to collect the update on any profile of it, and the dispatcher lets that profile through if and only if the update is version 1 |
| Deluge.NewerNeverSpreads | apps/deluge/deluge.c:581-615 | in every run in which messages go through the dispatcher, a node that lacks an update above version 1 keeps its version and its file |
| DelugeRounds.QuietRounds | apps/deluge/deluge.c:656-675 | rounds double from 2 to 64 seconds while nothing new is heard |
| DelugeRounds.RoundsStartAgain | apps/deluge/deluge.c:656-675 | after an inconsistency rounds start again at 2 seconds, whatever they were |
| DelugeRounds.SummaryCounts | apps/deluge/deluge.c:297-309 | a summary that agrees with the node is counted, any other is an inconsistency, and one of an older version asks for a profile |
| DelugeRounds.AdvertisesExactly | apps/deluge/deluge.c:268-288 | in a round a node advertises if and only if it has heard no summary that agrees with its own, and after one that does not agree the next round is short |
| DelugeRounds.RequestExactly | apps/deluge/deluge.c:397-428 | a request is taken up if and only if it is for the node's version and a page up to the first incomplete one; its packets join those of the same page or replace those of another, and its page is noted as asked for |
| DelugeRounds.AsksTwice | apps/deluge/deluge.c:255-266 | a node in RX asks twice and then gives up until it hears of newer pages |
| DelugeRounds.PageStopsAsking | apps/deluge/deluge.c:465-489 | the last packet of a page stops the request timer of a node in RX, since it is set for the next page before the change of mode stops it |
| DelugeRounds.ProfileExactly | apps/deluge/deluge.c:523-579 | a newer profile empties exactly the pages of which it lists a newer version and starts asking at the first incomplete one; any other changes nothing |
| DelugeRounds.ProfileOnce | apps/deluge/deluge.c:499-521 | a profile lists the version of each page and is sent once, in a round without agreeing summaries |
| DelugeRounds.AnswersOnce | apps/deluge/deluge.c:375-395 | a request is answered once, and nothing is left to send |
| DelugeRounds.OldestDataMissed | apps/deluge/deluge.c:321-330 | of two pages with data from 50 and 5 the program takes 50 for the oldest, because it compares request times where it means data |
| DelugeRounds.CorruptedOverwrites | apps/deluge/deluge.c:452-460 | a corrupted packet is not counted, but its bytes replace those of the packet with its number, which stays counted if it had arrived intact |
| DelugeRounds.RunKeepsTimers | apps/deluge/deluge.c:103-121 | in every run the transmission timer is armed in TX only |
| DelugeNode.DelugeNode.constructor | apps/deluge/deluge.c:190-223 | a started node satisfies the node invariant with every page complete |
| DelugeNode.DelugeNode.HandleSummaryMsg | apps/deluge/deluge.c:290-344 | the imperative handler leaves the state of the protocol model |
| DelugeNode.DelugeNode.HandleRequestMsg | apps/deluge/deluge.c:397-428 | the imperative handler leaves the state of the protocol model |
| DelugeNode.DelugeNode.HandlePacketMsg | apps/deluge/deluge.c:430-497 | the imperative handler, with its buffer, page table and file updates, leaves the state of the protocol model |
| DelugeNode.DelugeNode.ResetNewer | apps/deluge/deluge.c:545-565 | the reallocated page table is the old one with the pages of newer versions emptied |
| DelugeNode.DelugeNode.HandleProfileMsg | apps/deluge/deluge.c:523-579 | the imperative handler leaves the state of the protocol model |
| DelugeNode.DelugeNode.CommandDispatcher | apps/deluge/deluge.c:581-615 | a message gets to its handler if and only if it passes the length test, and otherwise changes nothing |
| DelugeNode.DelugeNode.FireRequest | apps/deluge/deluge.c:239-266 | the request and the state that the protocol model gives, for any current_rx_page |
| DelugeNode.DelugeNode.FireSummary | apps/deluge/deluge.c:268-288 | the summary that the protocol model gives, unless enough were heard |
| DelugeNode.DelugeNode.FireProfile | apps/deluge/deluge.c:499-521 | the loop collects the page versions into the profile that the protocol model gives |
| DelugeNode.DelugeNode.SendPage | apps/deluge/deluge.c:346-373 | the loop sends the requested packets of a page in order and clears the set |
| DelugeNode.DelugeNode.FireTx | apps/deluge/deluge.c:375-395 | the packets and the state that the protocol model gives |
| Checksum.SumLoop | tools/tunslip.c:342-361 | the 16-bit loop with end-around carry computes the one's-complement sum: the folded sum of the big-endian words |
| Checksum.SumComposes | tools/tunslip.c:342-361 | sums over consecutive pieces compose when the first has even length (section 2 of RFC 1071) |
| Checksum.CheckPacket | tools/tunslip.c:363-412 | the verdict, with its error code, is decided by version, length, header sum, pseudo header and rest as multiples of 65535 |
| Checksum.Verdicts | tools/tunslip.c:363-412 | which error code comes first: version, a packet cut short, one too long, header sum, transport sum; a UDP packet without checksum is never refused for its sum |
| Checksum.PseudoHeader | tools/tunslip.c:384-390 | the transport sum starts with addresses, protocol and length (section 3.1 of RFC 793), as long as the last two need no carry |
| Checksum.SwapAdd | tools/tunslip.c:645-649 | one's-complement addition commutes with swapping bytes, so the update may work in host order |
| Checksum.RewriteId | tools/tunslip.c:642-649 | the host-order update in place, on either byte order, sets the identification and the incrementally updated checksum (section 3 of RFC 1624) |
| Checksum.NeedsIdExactly | tools/tunslip.c:642-642 | a packet is numbered if and only if its identification is 0 and a bit is set that is the don't-fragment flag on big-endian hosts and a bit of the fragment offset on little-endian ones |
| Checksum.DontFragment | tools/tunslip.c:642-642 | a packet with only the don't-fragment flag is numbered on big-endian hosts and not on little-endian ones |
| Checksum.RewriteKeepsVerdict | tools/tunslip.c:642-654 | numbering a packet that contains its checksum field leaves the verdict of check_ip unchanged unless the header length field says 8 |
| Checksum.RewriteKeepsAccepted | tools/tunslip.c:642-654 | an accepted packet of any length stays accepted exactly when the header sum, and where it matters the sum of the rest, change by a multiple of 65535; by how much is said by which parts of the two rewritten words each covers |
| Checksum.RewriteKeepsLongAccepted | tools/tunslip.c:642-654 | an accepted packet that contains its checksum field stays accepted exactly when its header length is not 8 or the new identification is a zero of the sum |
| Checksum.ShortPacketExactly | tools/tunslip.c:642-654 | an accepted ICMP packet of 11 bytes with header length 0 stays accepted exactly when the identification and the high byte of the checksum change by a multiple of 65535 together |
| Checksum.ShortPacketFails | tools/tunslip.c:642-654 | numbering such a packet 1 makes it fail whenever the low byte of its checksum is not 0 |
| Checksum.SummedAccepted | tools/tunslip.c:301-329 | every packet with the fixed fields and the two checksums of a DHCP reply passes check_ip and is not numbered again |
| Checksum.WriteHeaders | tools/tunslip.c:301-329 | filling in the headers and checksums in place, in front of any DHCP message, gives an accepted packet with the given addresses, ports and lengths |
| Slip.DecodeAppend | tools/tunslip.c:453-584 | what the first part of the bytes leaves behind (unfinished frame, put-back escape) is all that decoding the rest needs |
| Slip.RoundTrip | tools/tunslip.c:662-678 | encoded packets of fewer than 2000 bytes are recovered in order, whatever bytes they hold (RFC 1055, PROTOCOL) |
| Slip.RecoveredExactly | tools/tunslip.c:471-583 | a packet is recovered if and only if it has 1 to 1999 bytes |
| Slip.BadEscape | tools/tunslip.c:560-583 | after an escape byte without one of the two codes the next byte is taken as it is (RFC 1055, PROTOCOL) |
| Slip.AnySplitRecovers | tools/tunslip.c:465-487 | however the byte stream is cut into reads, the reader recovers exactly the packets that were written |
| Slip.PartOfTheStream | tools/tunslip.c:604-624 | while part of the stream is still on its way, the frames found are the first packets |
| Slip.Reader.SerialToTun | tools/tunslip.c:453-584 | one call consumes what has arrived in place, emits the frames found and leaves exactly the decoder's state, with wrap-around at 2000 bytes and the put-back of a lone escape |
| Slip.Writer.FlushBuf | tools/tunslip.c:604-624 | any partial write moves bytes from the queue to the line: everything queued is written once and in order |
| Slip.Writer.Queue | tools/tunslip.c:662-678 | the escaping loop queues the encoded packet, and succeeds exactly when it fits behind what is queued |
| Slip.Writer.WriteToSerial | tools/tunslip.c:626-680 | a bad packet is dropped untouched; an accepted one is numbered if it asks for it, dropped exactly when it then fails the check, and otherwise queued whole in encoded form exactly when it fits |
| Slip.NumberedExactly | tools/tunslip.c:642-649 | a packet that asks for it leaves with the next number, every byte but number and checksum as it came, any other packet untouched |
| Bridge.Bridge.Take | tools/tunslip.c:686-698 | a packet from the tunnel leaves the buffers and the list of accepted packets as the specification of the bridge says, unless the queue overflows, which ends the program |
| Bridge.Bridge.FramesSoFar | tools/tunslip.c:453-624 | whatever has been flushed, has arrived and has been read, the frames emitted are the first of the non-empty accepted packets, and all of them once the line is drained |
| Bridge.RunBridge | tools/tunslip.c:1088-1110 | for every interleaving of packets from the tunnel, partial flushes, deliveries in pieces of any size and calls of the reader, the frames emitted are a prefix of the non-empty packets that were accepted and numbered, and exactly these once everything queued has been read |
| Bridge.TakesNumber | tools/tunslip.c:642-643 | a good packet that asks for a number leaves with the next one, the packet that asks next gets the one after it, modulo 65536, and others use up none |
| Transactions.RunList | apps/er-coap-12/er-coap-12-transactions.c:77-95 | in every run, orderly or not, the list holds each open transaction once, at most four, and a new one is refused exactly when four are open |
| Transactions.WalkServes | apps/er-coap-12/er-coap-12-transactions.c:185-199 | one check retransmits or ends exactly the expired transactions up to and including the first one that ends, each once, and leaves everything behind it alone |
| Transactions.CheckEffect | apps/er-coap-12/er-coap-12-transactions.c:185-199 | by place in the list: a transaction is served if and only if it has expired and none in front of it ends |
| Transactions.AllServedExactly | core/lib/list.c:243-262 | after one check no expired transaction is left if and only if none in front of the last expired one ends, since list_remove clears the link that the walk follows |
| Transactions.WalkStops | core/lib/list.c:255-258 | with two expired transactions of which the first ends, the second is left as it was, still expired |
| Transactions.RunWaiting | core/sys/etimer.c:113-131 | in every run in which new transactions are sent before the next check, no more transactions are expired than timer events are still to be delivered |
| Transactions.NoneForgotten | apps/er-coap-12/er-coap-12-transactions.c:185-199 | so an expired transaction that one check leaves behind is served by a later event: none is expired once all events are delivered |
| Transactions.RunKeeps | apps/er-coap-12/er-coap-12-transactions.c:77-199 | in every such run the list and timing invariant holds, in prompt runs also its exact form |
| Transactions.RunEnded | apps/er-coap-12/er-coap-12-transactions.c:97-154 | in every run in which new transactions are sent before the next check, an unanswered confirmable message was sent exactly five times with gaps of at least I, 2I, 4I, 8I for 2 s <= I <= 3 s, exactly these and at most 45 s in all if timers are served promptly, in however many checks an instant takes; a non-confirmable one was sent once (sections 4.2 and 4.8.2 of RFC 7252) |
| Transactions.TimeoutReached | apps/er-coap-12/er-coap-12-transactions.c:97-199 | for every clock rate and random number there is an orderly and prompt run in which a message is sent at 0, I, 3I, 7I and 15I, with I its first interval, and then times out and frees its slot |
| Transactions.RunsOutExactly | core/sys/etimer.c:113-131 | a timer that was just started posts its event from the end of its interval on, and not before |
| Transactions.FirstIntervals | apps/er-coap-12/er-coap-12-transactions.c:113-116 | the first interval can be every number of ticks from two to three seconds, and no other |
| Transactions.CheckBeforeSend | core/sys/etimer.c:204-208 | what happens otherwise: a check that reaches a transaction not sent yet counts it as a retransmission and doubles the interval that the buffer's previous user left |
| Transactions.FourSendingsAtOnce | apps/er-coap-12/er-coap-12-transactions.c:185-199 | a run with a check before the first sending, on a fresh pool, in which a transaction is sent four times at one instant and times out |
| Transactions.RefusedExactly | apps/er-coap-12/er-coap-12-transactions.c:80-95 | a new transaction is refused if and only if four are open |
| Transactions.NewGoesLast | apps/er-coap-12/er-coap-12-transactions.c:77-95 | a new transaction goes to the end of the list, in a free block whose timer it takes over as it is |
| TransactionPool.TransactionPool.NewTransaction | apps/er-coap-12/er-coap-12-transactions.c:77-95 | takes the first free buffer, with whatever its timer was left at, and appends it to the list; nothing if all are taken |
| TransactionPool.TransactionPool.SendTransaction | apps/er-coap-12/er-coap-12-transactions.c:97-154 | starts or doubles the interval in place, or ends the transaction after the last sending |
| TransactionPool.TransactionPool.ClearTransaction | apps/er-coap-12/er-coap-12-transactions.c:156-167 | stops the timer, unlinks the transaction, whose link is cleared, and frees it; the others keep their order |
| TransactionPool.TransactionPool.GetTransactionByMid | apps/er-coap-12/er-coap-12-transactions.c:169-183 | finds an open transaction with the message id if and only if there is one |
| TransactionPool.TransactionPool.ListAdd | core/lib/list.c:142-158 | appends an item at the end of the linked list |
| TransactionPool.TransactionPool.ListRemove | core/lib/list.c:238-262 | unlinks an item in place, keeps the order of the others and clears the item's own link |
| TransactionPool.TransactionPool.FireTimer | core/sys/etimer.c:113-131 | a timer that has run out is stopped and posts one event; any other is left alone |
| TransactionPool.TransactionPool.CheckTransactions | apps/er-coap-12/er-coap-12-transactions.c:185-199 | the walk along the links, which are cleared under it when a transaction ends, has exactly the effect of the specification's Check |
| WellKnownCore.PutString | apps/er-coap-12/er-coap-12-engine.c:410-421 | a string that starts before, in or behind the window leaves the window's part of it, and reports when the window is full |
| WellKnownCore.RenderResource | apps/er-coap-12/er-coap-12-engine.c:389-455 | after one resource the buffer holds the window of the text so far; rendering stops only if the window is full and text is or may be left |
| WellKnownCore.Render | apps/er-coap-12/er-coap-12-engine.c:307-481 | the buffer holds exactly the slice [offset, min(offset + size, L)) of the full link-format string, nothing behind the terminator is written, and the offset becomes -1 exactly if L < offset + size, or L = offset + size and the last resource has no attributes (section 2 of RFC 6690) |
| WellKnownCore.DirectoryReadsBack | apps/er-coap-12/er-coap-12-engine.c:389-455 | from the full string a reader of link format gets the resources back, each with its attributes and in order, for targets without '>' and attributes without commas (section 2 of RFC 6690) |
| WellKnownCore.Serve | apps/er-coap-12/er-coap-12-engine.c:139-196 | a request for a block of any size is answered, after trimming, with exactly the slice at its offset, cut to a chunk, or with an error exactly behind the end; the offset is that of the size asked for |
| WellKnownCore.WholeTransfer | apps/er-coap-12/er-coap-12-engine.c:139-185 | the blocks of one size give the full string if and only if they, or the string, are no larger than a chunk of 128 bytes; every block but the last announces more, and the last one does too exactly when the string goes on behind what is sent, or ends there in an attribute; the next request is an error |
| WellKnownCore.AdoptedSize | apps/er-coap-12/er-coap-12-engine.c:139-185 | a client that goes on with the size of the first answer gets the full string, whatever size it asks for first |
| WellKnownCore.LabelExactly | apps/er-coap-12/er-coap-12.c:1056-1071 | for every Block2 value that can be received: the answer is labelled if and only if the block number has at most 20 bits, and the label names the place of the payload if and only if the number is 0 or the size is at most a chunk |
| WellKnownCore.SecondLargeBlock | apps/er-coap-12/er-coap-12-engine.c:139-145 | block 1 of size 256 is answered with bytes 256 to 383 under the label of bytes 128 to 255, which no block of that size holds |
| WellKnownCore.WrappedRequest | apps/er-coap-12/er-coap-12.c:616-621 | a received value whose number exceeds 20 bits and whose offset wraps to 0 is answered with the first bytes and no label |
| WellKnownCore.UnawareWholeTransfer | apps/er-coap-12/er-coap-12-engine.c:166-181 | for blocks of any size, the engine cuts what it keeps of an unaware resource's payload into blocks that give it back, which is the payload if and only if that is no longer than a chunk; each block has the right more flag and place, and requests behind the end get an error |
| WellKnownCore.LongBlockAnnouncesMore | apps/er-coap-12/er-coap-12-engine.c:183-190 | a resource that sets more than one block is cut to it and announces more, even if it reports the end |
| WellKnownCore.UnaskedIsFirstBlock | apps/er-coap-12/er-coap-12-engine.c:191-197 | without a Block2 option the first chunk of the directory is served |
| CoapOptions.ReadEncoded | apps/er-coap-12/er-coap-12.c:98-164 | the parser finds the value of any written option whatever follows, with jumps and unbounded 255-chained lengths, under the number that it reads back (Option Format section of draft-ietf-core-coap-12) |
| CoapOptions.JumpAgreement | apps/er-coap-12/er-coap-12.c:127-164 | writer and parser agree on the option number exactly for deltas below 30 and for those whose eighth leaves 2 modulo 16 |
| CoapValues.IntRoundTrip | apps/er-coap-12/er-coap-12.c:84-96 | minimal big-endian integers are read back |
| CoapValues.FirstByteCountsMost | apps/er-coap-12/er-coap-12.c:84-96 | values of up to four bytes are big-endian |
| CoapValues.FewBytes | apps/er-coap-12/er-coap-12.c:166-186 | integers are written in as few bytes as possible |
| CoapValues.BlockRoundTrip | apps/er-coap-12/er-coap-12.c:616-631 | Block values come back with number, more flag and size, and with an offset of number times size (section 2.2 of RFC 7959) |
| CoapValues.MergeIsJoin | apps/er-coap-12/er-coap-12.c:243-265 | merging option values onto a field that is not empty joins them with the separator |
| CoapValues.SplitMerge | apps/er-coap-12/er-coap-12.c:191-265 | splitting and merging give a string back if and only if it does not start with the separator and no separator that is looked at is last or followed by a slash |
| CoapValues.CleanPath | apps/er-coap-12/er-coap-12.c:208-227 | for paths this means: no empty part |
| CoapValues.CleanQuery | apps/er-coap-12/er-coap-12.c:208-227 | for queries it is enough that no part is empty or starts with a slash |
| CoapMessage.ParseEncoded | apps/er-coap-12/er-coap-12.c:453-651 | the option loop on encoded options sets the fields one after the other and goes on behind them |
| CoapMessage.FieldsSet | apps/er-coap-12/er-coap-12.c:339-373 | the options written for each field, set one after the other, rebuild the whole message |
| CoapMessage.ParseSerialized | apps/er-coap-12/er-coap-12.c:425-668 | parsing a serialized message gives back type, code, id, every option and the payload; with 15 or more options the payload gets the terminator in front |
| CoapMessage.RoundTripExactly | apps/er-coap-12/er-coap-12.c:339-668 | a message within the field limits comes back unchanged, up to computed block offsets, if and only if its strings are clean and it has fewer than 15 options (or a payload of 128 terminator bytes) |
| CoapWire.ParseWireExactly | apps/er-coap-12/er-coap-12.c:425-668 | any list of options on the wire whose numbers writer and parser agree on: the message whose fields are determined by the options of their numbers alone (the last value, its first eight bytes, the first two, or all joined), if and only if no option is refused; otherwise the error of the first refused one, 4.02 for an unknown odd number, 5.05 for Proxy-Uri |
| CoapWire.UnknownSetNothing | apps/er-coap-12/er-coap-12.c:642-648 | options that are not understood set nothing |
| CoapWire.NineAndTen | apps/er-coap-12/er-coap-12.c:642-648 | an empty option 9 makes a message a bad option, an empty option 10 does not |
| CoapWire.BadRequestExactly | apps/er-coap-12/er-coap-12.c:444-448 | a message is a bad request if and only if its version is not 1 |
| CoapWire.SerializedExactly | apps/er-coap-12/er-coap-12.c:339-408 | a message is serialized if and only if header, options and terminator have at most 70 bytes, whatever its payload |
| CoapSerializer.Serializer.SetOptionHeader | apps/er-coap-12/er-coap-12.c:98-125 | the loop writes the header with its chain of 255s and nothing else |
| CoapSerializer.Serializer.SerializeWholeOption | apps/er-coap-12/er-coap-12.c:229-238 | jump, header and value are one encoded option |
| CoapSerializer.Serializer.SerializeSplitOption | apps/er-coap-12/er-coap-12.c:198-228 | the splitting loop writes one option per part |
| CoapSerializer.MovePayload | apps/er-coap-12/er-coap-12.c:383-387 | the payload is moved down intact even when it lies in the message buffer |
| CoapSerializer.SerializeMessage | apps/er-coap-12/er-coap-12.c:339-408 | the buffer holds exactly the message's encoding, or 0 is returned exactly when header and options exceed 70 bytes; nothing behind the message is written |
| CoapParser.Packet.MergeMultiOption | apps/er-coap-12/er-coap-12.c:243-265 | merges in place, writing only between the end of the field and the end of the option |
| CoapParser.Packet.StoreString | apps/er-coap-12/er-coap-12.c:546-615 | storing or merging a string option changes no byte of another string nor of what is not parsed yet |
| CoapParser.Packet.StoreScalar | apps/er-coap-12/er-coap-12.c:513-648 | each other option sets its field, is rejected with its error code, or is ignored if elective |
| CoapParser.Packet.ReadNext | apps/er-coap-12/er-coap-12.c:463-508 | jump, header and chained length of the option at a position |
| CoapParser.Packet.OptionLoop | apps/er-coap-12/er-coap-12.c:453-653 | the loop, merging in the bytes it parses, ends with the fields that parsing the original bytes gives; unparsed bytes are untouched |
| CoapParser.Packet.Parse | apps/er-coap-12/er-coap-12.c:425-668 | the packet's fields, as slices of the changed buffer, are exactly the message that the received bytes encode; from the payload on only the terminating zero is written |

## Left out

- AqlParser.WhereParser.ParseWhere: status and position are exact for every token sequence; the emitted code is stated for clauses without parentheses only, because the code does not give parentheses their usual meaning.
- AqlParser.WhereParser.ParseLink: as ParseWhere, the emitted code is stated for clauses without parentheses only.
- AqlParser.WhereParser.ParseExpr: as ParseWhere, the emitted code is stated for sides without parentheses only.
- AqlParser.WhereParser.ParseComparison: as ParseWhere, the emitted code is stated for comparisons without parentheses only.
- AqlCompile.CompileAndRun: the buffer must have room for every token at once and for one more node; clauses whose code would fill it are not compared with their meaning.
- LvmMachine.Machine.Run: longs are mathematical integers, so overflow of an arithmetic result or of a derived bound is not modelled; padding bytes of variable operands are zero.
- LvmMachine.Machine.RegisterVariable: the table has its intended four entries with names of twelve characters.
- LvmMachine.Machine.ShiftForOperator: the caller leaves room for the eight bytes that the code moves; the program checks for four only, and what it writes behind its buffer has no place in the model.
- MaxHeapIndex.MaxHeapIndex.BucketLoad: buckets are read from storage; the cache in front of it is not modelled.
- MaxHeapIndex.MaxHeapIndex.GetFirst: every bucket is read afresh; the bucket cache, which is stale after an append, the later hits of a key, the walk through a key range and loading an old index are not modelled.
- RelationSelect.RunSelect: rows are sequences of variable values, and attributes are given by their variable slots; projection, REMOVE, ASSIGN and aggregation are left out.
- RelationSelect.SelectHandle.Open: the map from attributes to columns of the result is left out.
- RelationSelect.SelectHandle.Process: as RunSelect, what is done with a row that satisfies the condition is left out.
- RelationJoin.RunJoin: rows are join values; copying the attributes of a joined row is left out.
- The lexer, the other AQL statements and the plain storage layer of Antelope.
- Deluge.Dissemination: the page count does not change, no request for a page under the prior version is in flight when the wave starts (the exact reason is OldRequestMislabels), updates do not overlap and packets are not corrupted, because a packet's payload is copied before its sum is checked.
- DelugeNode.DelugeNode.FireRequest: what a timer that is still armed after the last page reads behind the page table is a parameter.
- DelugeNode.DelugeNode.HandleProfileMsg: profiles with another page count than the node's are left out.
- DelugeSpread.EveryNodeUpdated: that the update can spread from every state; that timers fire and messages get through often enough for it to happen is not modelled.
- WellKnownCore.DirectoryReadsBack: attributes with commas, which need quoted strings in link format, are not read back.
- CoapWire.ParseWireExactly: lists with an option number that writer and parser do not agree on (CoapOptions.JumpAgreement) are left out.
- Slip.Reader.SerialToTun: what is done with a complete frame (address configuration, debug output, DHCP relaying to the server, writing to the tunnel) is left out.
- Bridge.RunBridge: the reader at the other end of the line is the program's own; that a packet is taken from the tunnel only while the queue is empty is not required.
- Slip.Writer.WriteToSerial: the program ends on an overflow; what is queued then is not specified. A check that would read behind the buffer counts as failed.
- Checksum.WriteHeaders: the selection of DHCP options that are copied into the message is left out.
- Transactions.RunEnded: a client sends each transaction once and before the next check; posting a timer's event does not fail.
- TransactionPool.TransactionPool.SendTransaction: the message that is sent, the callback and the removal of observers after the last sending are left out.
- WellKnownCore.Render: link-format filtering is left out.
- WellKnownCore.Serve: a chunk has its default size of 128; offsets of 2^31 and more, which only unlabelled requests have and which the handler takes for negative, are left out; status codes and the content type are reduced to whether the answer is in scope; Block1 is refused by the engine and left out.
- CoapMessage.RoundTripExactly: for messages without Proxy-Uri, which the parser refuses, and with fields within their limits (8-byte tags, two accepted types, block sizes of 16 to 2048).
- CoapParser.Packet.StoreScalar: as Parse, the option bitmap is modelled as presence of the known fields.
- CoapParser.Packet.Parse: the bitmap of option numbers is modelled as presence of the known fields; numbers of 40 and more, which lie outside that bitmap, are treated like other unknown options.
- CoapSerializer.Serializer.SerializeSplitOption: bytes behind the string that the splitting loop may look at are not modelled.
- CoapSerializer.SerializeMessage: the buffer must have room for the options even when they turn out too long, as in the program; bytes behind a string that the splitting loop may look at are not modelled.
- Receiving and dispatching messages in the CoAP engine, separate responses, observers and the blocking client; er-coap drafts 03, 07 and 13; codeprop.
- Sockets, serial lines, processes, process events and debug output.
