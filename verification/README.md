# Verified models of the algorithm and JSON libraries

The repository bundles a library of self-contained algorithms (`liblinktool/klib`) and a JSON library
(`liblinktool/cJSON`) next to device and cloud code. This project models nine of their components in
Dafny 4.11 and proves what they are for. `dafny verify dfyconfig.toml` checks all of it.

| component | files | main results |
|---|---|---|
| Boyer-Moore search | `BoyerMoore.dfy` | no shift jumps over a match; the search finds the leftmost occurrence or proves there is none |
| parallel loops and pipelines | `KtFor.dfy`, `KtPipeline.dfy` | every index exactly once in every schedule; steps never overlap and hand on their results in order; no deadlock, termination |
| hash table | `KhashProbe.dfy`, `KhashFlags.dfy`, `KhashTable.dfy`, `Khash.dfy` | over every run the table is a finite map, through in-place rehashing by kick-out |
| expressions | `Kexpr.dfy`, `KexprTrees.dfy`, `KexprLevels.dfy`, `KexprSigns.dfy`, `KexprEval.dfy`, `KexprErrors.dfy` | exactly which trees are parsed to their reverse Polish notation, and that evaluating it gives their value |
| B-tree | `KbtreeSpec.dfy`, `KbtreeHeap.dfy`, `Kbtree.dfy` | over every run the tree in memory stays balanced and sorted and holds exactly the keys put and not deleted |
| allocator | `KallocBlocks.dfy`, `KallocRing.dfy`, `KallocState.dfy`, `Kalloc.dfy` | one address-ordered free list, nothing overlaps or is lost, no panic, contents of live blocks untouched, full coalescing |
| trees with range minima | `KrmqTree.dfy`, `KrmqHeap.dfy`, `KrmqSearch.dfy`, `KrmqPath.dfy`, `KrmqRemove.dfy`, `KrmqRange.dfy`, `Krmq.dfy`, `KrmqRuns.dfy` | over every run the tree in memory is a balanced search tree with exact sizes and least nodes, and range minima agree with a scan |
| JSON merge patch | `JsonValue.dfy`, `JsonTree.dfy`, `JsonKeys.dfy`, `JsonCompare.dfy`, `JsonPatch.dfy`, `JsonGenerate.dfy`, `JsonExact.dfy`, `JsonUpdate.dfy`, `JsonIdeal.dfy` | applying is the function of RFC 7396; exactly when generating and applying gives the goal |
| JSON text | `CJsonNumber.dfy`, `CJsonText.dfy`, `CJsonRead.dfy`, `CJsonGrammar.dfy`, `CJsonTexts.dfy`, `CJsonLimits.dfy`, `CJsonStrings.dfy`, `CJsonParse.dfy`, `CJsonPrint.dfy`, `CJsonWritten.dfy`, `CJsonLayout.dfy`, `CJson.dfy` | the parser accepts exactly the texts of a grammar within its nesting limit; what is printed is in the grammar; exactly when printing and parsing is the identity; within bounds at every step |

`Arithmetic.dfy` and `Wrappers.dfy` hold a product and an option type that several of them share.

How the sources are rendered:

- Code that changes arrays or fields in place is a method with `modifies`, specified by a function of the
  old contents. The nodes of both kinds of trees and the headers of the allocator lie in a map from addresses to
  records that the methods update entry by entry; a tree or a sequence of blocks, carried along as a ghost
  value, says what the memory means, and frame predicates (`Step`, `Only`, `Intact`) say what was not touched. Loops over a recorded
  path are described by the path taken apart from the tree, as a list of frames (`KrmqTree.Frame`).
- `kt_for` and `kt_pipeline` are transition systems. One step is one atomic action of one thread: a fetch
  and add, one read of a counter, taking or releasing the mutex, a wait, a wakeup, a spurious one included.
- Operators, functions and constants of expressions are parameters of the evaluation; hash and key and
  value types of the hash table are abstract.
- `strtod` and the formats `%1.15g` and `%1.17g` belong to the C library. They are one constant,
  `CJsonNumber.C`, of which only what `CJsonNumber.AsInC` says is known: formatting gives short numerals that
  are read as a whole, the long format is read back exactly, and what is read is read the same on its own. A
  number is an integer that names a double.
- Where a malloc is called, the address it returns is a parameter or a counter, known only to be outside
  everything in use.

Where the code does not do what one would expect, the model follows the code:

- A comma does not end a value for the expression parser, so a sign at the start of a later argument is
  read as a binary operator. `KexprSigns.ParseIsExact` says exactly which trees are affected.
- `kt_pipeline` with a single step never ends (`KtPipeline.SingleStepNeverStops`).
- The patch generated between two objects cannot set a member to null, because a null in a patch removes;
  `JsonValue.RoundTrip` gives the exact condition. Without regard to case, objects are sorted by one order
  and walked through by another, so a patch may remove a member that should stay (`JsonUpdate.LosesMember`);
  nested patches are always generated that way (`JsonUpdate.LosesNested`). `JsonExact.Exact` says for all
  inputs when the goal is reached, `JsonUpdate.AlikeResult` gives a simple condition under which the patch is
  the ideal one.
- The pass that recomputes the least nodes after a removal also compares the local node above the root,
  whose user part is never set; the model lets it be anything (`Krmq.KRmq.Erase`).
- A number is printed with 15 digits if that is read as a number within the tolerance of `compare_double`, so
  it may be read back as a neighbour; NaN and infinities are printed as `null`. `CJsonWritten.RereadSame` says
  exactly which trees come back unchanged.
- The JSON parser refuses arrays and objects nested more than 1000 deep, which the printer writes.


## Model

| member | source | states |
|---|---|---|
| `BoyerMoore.PreBmBc` | liblinktool/klib/kstring.c:141-144 | the bad-character table holds, for every byte, the distance of its last occurrence before the final position from the end of the pattern, and the pattern length for bytes that do not occur there |
| `BoyerMoore.Suffixes` | liblinktool/klib/kstring.c:145-160 | every suffix length is exact: the longest common suffix of the pattern and of its prefix up to that position, although most are copied instead of compared |
| `BoyerMoore.CopiedSuffix` | liblinktool/klib/kstring.c:151-152 | a mirrored suffix length that stays inside the window may be copied |
| `BoyerMoore.ReusedSuffix` | liblinktool/klib/kstring.c:153-157 | otherwise everything down to the window is known to agree, so comparing may resume there |
| `BoyerMoore.PreBmGs` | liblinktool/klib/kstring.c:161-171 | every good-suffix entry is the least shift that is plausible after a mismatch at that position |
| `BoyerMoore.BMPrep` | liblinktool/klib/kstring.c:136-174 | both tables are right for every non-empty pattern |
| `BoyerMoore.MatchIsPlausible` | liblinktool/klib/kstring.c:186-190 | an occurrence further right is at a plausible shift, so the good-suffix shift does not jump over it |
| `BoyerMoore.MatchClearsBadChar` | liblinktool/klib/kstring.c:186-190 | nor does the bad-character shift |
| `BoyerMoore.ShiftIsSafe` | liblinktool/klib/kstring.c:187-190 | the larger of the two shifts is at least 1 and no occurrence lies before the new position |
| `BoyerMoore.Search` | liblinktool/klib/kstring.c:184-195 | the search returns the leftmost occurrence, or none exactly when there is none |
| `BoyerMoore.KMemMem` | liblinktool/klib/kstring.c:176-195 | the same with tables made on demand; a caller's slot is filled once and kept |
| `BoyerMoore.PeriodIsSafe` | liblinktool/klib/kstring.c:240-248 | two occurrences are never closer than the first good-suffix entry |
| `BoyerMoore.FindAll` | liblinktool/klib/kstring.c:240-248 | restarting past each match lists all occurrences, overlapping ones too, in order |
| `KtFor.Step` | liblinktool/klib/kthread.c:24-46 | one atomic step of one worker: own fetch, scan of the counters, steal; the state stays well formed |
| `KtFor.InvStep` | liblinktool/klib/kthread.c:24-46 | every step of every worker keeps the invariant that each counter names exactly the indices taken from its residue class |
| `KtFor.EachIndexExactlyOnce` | liblinktool/klib/kthread.c:24-61 | in every schedule no index is run twice and none outside 0..n-1; once all workers have left, each has run exactly once |
| `KtFor.CountersBounded` | liblinktool/klib/kthread.c:24-46 | no counter exceeds n + T - 1 + T * (T + 1), racy steals included |
| `KtFor.SoloScan` | liblinktool/klib/kthread.c:26-30 | a scan without interference finds the first least counter |
| `KtFor.EveryRunTerminates` | liblinktool/klib/kthread.c:24-61 | every schedule is finite, with a bound in the number of threads and indices |
| `KtFor.MaximalRunCompletes` | liblinktool/klib/kthread.c:48-61 | a schedule that cannot be continued has run every index exactly once |
| `KtFor.KtForSequential` | liblinktool/klib/kthread.c:61-64 | with one thread the indices are run in order |
| `KtPipeline.StepIsExclusive` | liblinktool/klib/kthread.c:199-216 | no two workers that passed the guard are in the same step |
| `KtPipeline.StepsNeverOverlap` | liblinktool/klib/kthread.c:195-226 | in every reachable state no two workers run the same step |
| `KtPipeline.InvStep` | liblinktool/klib/kthread.c:195-226 | every action keeps the invariant about guards, sleepers, indices and the log of calls |
| `KtPipeline.CallsInOrder` | liblinktool/klib/kthread.c:213-221 | the calls of each step have strictly increasing item index, and return in that order |
| `KtPipeline.InputsArePrefixOfOutputs` | liblinktool/klib/kthread.c:213-221 | what a later step has been given is a prefix of the non-NULL results of the step before it; at the end it is all of them |
| `KtPipeline.LowestIsUnblocked` | liblinktool/klib/kthread.c:199-211 | the live worker with the least index is never blocked, and if asleep it has been woken |
| `KtPipeline.WaitsForOlder` | liblinktool/klib/kthread.c:199-216 | a worker at work is behind no older item, and a sleeping one waits for an older item that has not passed its step, or is about to be woken |
| `KtPipeline.NoDeadlock` | liblinktool/klib/kthread.c:199-224 | unless all workers have left, some worker can move: no wakeup is lost |
| `KtPipeline.FewCalls` | liblinktool/klib/kthread.c:213-221 | with at least two steps and K non-NULL results of the first step, at most K * n_steps + n_workers calls are made |
| `KtPipeline.RunsTerminate` | liblinktool/klib/kthread.c:195-226 | such runs are finite, with an explicit bound that counts spurious wakeups separately |
| `KtPipeline.MaximalRunCompletes` | liblinktool/klib/kthread.c:228-256 | a run that cannot be continued ends with all workers gone and nothing left between the steps |
| `KtPipeline.WorkersLeaveOnNull` | liblinktool/klib/kthread.c:220-221 | with at least two steps, once all workers have left, the steps before the last one returned NULL exactly once per worker: nobody leaves because of what the last step returned |
| `KtPipeline.ItemsComeThrough` | liblinktool/klib/kthread.c:199-226 | at the end every item the first step was called for came through the last one, but for one per worker |
| `KtPipeline.SingleStepNeverStops` | liblinktool/klib/kthread.c:220 | with a single step the pipeline never ends: wrapping around takes precedence over a NULL result |
| `KhashProbe.ProbesDistinct` | liblinktool/klib/khash.h:236-240 | the first n probes into n = 2^b buckets are distinct |
| `KhashProbe.ProbesCover` | liblinktool/klib/khash.h:236-240 | and meet every bucket |
| `KhashProbe.BackAtStart` | liblinktool/klib/khash.h:238-239 | the probe first returns to its start at step 2n - 1, so the exit there is never premature |
| `KhashProbe.MeetingDistance` | liblinktool/klib/khash.h:238 | two probes can only meet at these distances |
| `KhashFlags.LaneIs` | liblinktool/klib/khash.h:166-168 | bucket i has the bits at twice i modulo 16 of its word |
| `KhashFlags.IsEmpty` | liblinktool/klib/khash.h:165 | the bit test agrees with the abstract state of the bucket |
| `KhashFlags.IsDel` | liblinktool/klib/khash.h:166 | the same for deleted |
| `KhashFlags.IsEither` | liblinktool/klib/khash.h:167 | the same for either |
| `KhashFlags.SetIsDelTrue` | liblinktool/klib/khash.h:171 | setting the bit marks this bucket deleted and changes no other bucket packed in the same word |
| `KhashFlags.SetIsEmptyFalse` | liblinktool/klib/khash.h:169 | clearing the empty bit touches this bucket alone |
| `KhashFlags.SetIsBothFalse` | liblinktool/klib/khash.h:170 | clearing both bits makes this bucket live and touches no other |
| `KhashFlags.FillEmpty` | liblinktool/klib/khash.h:226 | filling the words with 0xaa makes every bucket empty |
| `KhashTable.MissedIsAbsent` | liblinktool/klib/khash.h:237-241 | a probe that ends at an empty bucket, or comes round, has proved the key absent |
| `KhashTable.MetInTime` | liblinktool/klib/khash.h:237-240 | a stored key is met within n probes |
| `KhashTable.Inserted` | liblinktool/klib/khash.h:336-345 | a key put in the bucket its probe reached keeps every stored key reachable |
| `KhashTable.Removed` | liblinktool/klib/khash.h:349-354 | a deleted mark keeps every other key reachable |
| `KhashTable.PickedUp` | liblinktool/klib/khash.h:270-276 | picking up an old entry keeps the two layouts consistent |
| `KhashTable.KickedOut` | liblinktool/klib/khash.h:283-286 | exchanging the entry in hand with the old one in its place loses and duplicates nothing, and leaves fewer old entries |
| `KhashTable.HasPutDown` | liblinktool/klib/khash.h:287-290 | writing the entry in hand completes its move |
| `KhashTable.RoomLeft` | liblinktool/klib/khash.h:277-281 | the new layout has an empty bucket while an entry is in hand, so the inner probe ends |
| `KhashTable.RehashEnd` | liblinktool/klib/khash.h:294-303 | when no old entry is left the new layout is the same map, and the occupied buckets are its size |
| `Khash.UpperBound` | liblinktool/klib/khash.h:303 | the load bound is 0.77 times the buckets, rounded; it leaves a bucket free and is more than half the buckets |
| `Khash.TargetLog` | liblinktool/klib/khash.h:249-250 | rounding up gives the least power of two that fits, and at least 4 |
| `Khash.RequestFits` | liblinktool/klib/khash.h:311-315 | the size asked for when the table is full always leaves room for one key more |
| `Khash.Search` | liblinktool/klib/khash.h:233-241 | the search loop ends at a live bucket with the key, or has missed it |
| `Khash.ScanForSlot` | liblinktool/klib/khash.h:324-333 | the loop of kh_put finds the key, or a bucket on its probe that it may take: an empty one only if no deleted one came before it |
| `Khash.FindSlot` | liblinktool/klib/khash.h:320-334 | the same from the home bucket on |
| `Khash.FindEmpty` | liblinktool/klib/khash.h:278-281 | the first empty bucket on the probe in the new layout |
| `Khash.Relocate` | liblinktool/klib/khash.h:277-292 | the kick-out chain ends and both layouts in one array stay consistent with the map |
| `Khash.Rehash` | liblinktool/klib/khash.h:269-294 | afterwards no old entry is left |
| `Khash.Rebuild` | liblinktool/klib/khash.h:253-298 | the rebuilt arrays hold the same map in n buckets with no deleted marks |
| `Khash.KHash.constructor` | liblinktool/klib/khash.h:212-214 | a new table is the empty map |
| `Khash.KHash.Clear` | liblinktool/klib/khash.h:223-229 | the empty map, in as many buckets |
| `Khash.KHash.Get` | liblinktool/klib/khash.h:230-243 | the bucket of the key exactly when it is in the map, else the number of buckets |
| `Khash.KHash.Del` | liblinktool/klib/khash.h:349-355 | the map without the key of that bucket, or the same map if the bucket is not live |
| `Khash.KHash.Resize` | liblinktool/klib/khash.h:244-306 | the same map in the rounded-up number of buckets, or nothing at all if they would be too few |
| `Khash.KHash.MakeRoom` | liblinktool/klib/khash.h:310-318 | nothing changes while the load is below the bound; else the table gets its first four buckets, as many as before if more than half hold nothing, or twice as many |
| `Khash.KHash.Take` | liblinktool/klib/khash.h:336-347 | the return code tells present, empty or deleted; only the last two add the key |
| `Khash.KHash.Put` | liblinktool/klib/khash.h:307-348 | the map with the key added if it was absent, in the returned bucket; the return code tells whether the key was there, an empty bucket was taken or a deleted one, and no bucket more is occupied in the last case |
| `Khash.KHash.SetValue` | liblinktool/klib/khash.h:521 | writing the value of a live bucket updates the map at its key |
| `Khash.Replay` | liblinktool/klib/khash.h:211-355 | over every run of put, del, resize and clear the table is the map those operations give |
| `KrmqTree.DepthBound` | liblinktool/klib/krmq.h:69-79 | a balanced tree whose size fits its 32-bit field has at most 45 levels, so paths of 64 entries suffice |
| `KrmqTree.MinOfIsMin` | liblinktool/klib/krmq.h:154-157 | the node stored is a least one of the subtree |
| `KrmqTree.RotatedGood1` | liblinktool/klib/krmq.h:159-170 | a single rotation restores balance, sizes and least nodes, in either direction |
| `KrmqTree.RotatedGood2` | liblinktool/klib/krmq.h:172-192 | so does a double rotation |
| `KrmqTree.RotatedOrder2` | liblinktool/klib/krmq.h:172-192 | and the order of the nodes stays |
| `Krmq.KRmq.Rotate1` | liblinktool/klib/krmq.h:159-170 | the writes to memory are that rotation, and touch only that subtree |
| `Krmq.KRmq.Rotate2` | liblinktool/klib/krmq.h:172-192 | the same for the double rotation, balances included |
| `Krmq.KRmq.Find` | liblinktool/klib/krmq.h:82-95 | the node with the key, if any, and the number of nodes with keys up to it |
| `Krmq.KRmq.Interval` | liblinktool/klib/krmq.h:96-108 | the nearest nodes below and above a missing key |
| `Krmq.KRmq.Descend` | liblinktool/klib/krmq.h:202-217 | the recorded path, the rank, and the last node on the path that leans |
| `KrmqPath.LeastStep` | liblinktool/klib/krmq.h:223-226 | stopping at the first node whose least node is not the new one leaves all least nodes right |
| `Krmq.KRmq.MinsUp` | liblinktool/klib/krmq.h:223-226 | the least nodes of the whole tree are right after that pass |
| `KrmqPath.Raised` | liblinktool/klib/krmq.h:227-238 | after the balances are updated the height is what it was, or the last leaning node leans by 2 with a child that leans |
| `Krmq.KRmq.Rebalance` | liblinktool/klib/krmq.h:230-240 | then one rotation restores everything |
| `Krmq.KRmq.Insert` | liblinktool/klib/krmq.h:195-242 | the node goes in at its rank, which is returned, unless its key is there; order, balance, sizes and least nodes hold again, and no other memory is written |
| `Krmq.KRmq.Seek` | liblinktool/klib/krmq.h:250-264 | the recorded path to the key, and its rank |
| `Krmq.KRmq.SeekFirst` | liblinktool/klib/krmq.h:265-269 | the path to the first node |
| `KrmqRemove.HoleLeft` | liblinktool/klib/krmq.h:271-301 | the node that is missing leaves the path as if what hangs at its end were one level higher |
| `Krmq.KRmq.Detach` | liblinktool/klib/krmq.h:271-301 | the node is replaced by its child, or by its successor from near or far, and the order of the others stays |
| `Krmq.KRmq.MinsAll` | liblinktool/klib/krmq.h:302-303 | the least nodes of the whole path, the local node included |
| `KrmqRemove.SettledGood` | liblinktool/klib/krmq.h:304-324 | each step of the way up restores the subtree; the loop may stop where the height is what it was |
| `Krmq.KRmq.Settle` | liblinktool/klib/krmq.h:304-324 | so the whole tree is restored |
| `Krmq.KRmq.Erase` | liblinktool/klib/krmq.h:245-327 | exactly the node with that key goes, or the first one, and its rank is returned; nothing is written if there is none |
| `KrmqRange.NotYetMet` | liblinktool/klib/krmq.h:130-133 | as long as both paths have not met within the interval, all of it is below the node both have reached |
| `Krmq.KRmq.Sweep` | liblinktool/klib/krmq.h:135-148 | one path and the least nodes stored beside it cover one side of the interval |
| `Krmq.KRmq.Rmq` | liblinktool/klib/krmq.h:111-150 | NULL exactly when no key is in the closed interval, else a node in it that no other one in it is below |
| `KrmqRuns.Run` | liblinktool/klib/krmq.h:81-327 | over every run of insertions, removals, searches and range queries every answer is right and the tree holds the map those calls give |
| `Kexpr.ParseCore` | liblinktool/klib/kexpr.c:254-352 | the loop over two stacks computes the state machine that the other lemmas are about, errors included |
| `KexprTrees.PopSpine` | liblinktool/klib/kexpr.c:313-319 | an incoming operator moves exactly the operators it yields to, by precedence and associativity |
| `KexprTrees.FeedBinary` | liblinktool/klib/kexpr.c:310-322 | two operands and the operator between them, fed to the parser |
| `KexprLevels.EveryOperator` | liblinktool/klib/kexpr.c:15-38 | every operator takes one argument or is in exactly one level of the list from `**` to `||` |
| `KexprLevels.GroupsByLevel` | liblinktool/klib/kexpr.c:64-78 | of two operators the one in the tighter level takes the operand between them, within a level the left one, and the right one for `**` only |
| `KexprLevels.SignsFirst` | liblinktool/klib/kexpr.c:64-78 | an operator of one argument takes the operand behind it before any other does |
| `KexprTrees.FeedTree` | liblinktool/klib/kexpr.c:269-325 | reading a well-written tree, in any context that hosts it, outputs its reverse Polish notation up to the operators still open |
| `KexprTrees.FeedArgs` | liblinktool/klib/kexpr.c:282-300 | the same for argument lists: the counter of the call is the number of arguments |
| `KexprTrees.NetOfTree` | liblinktool/klib/kexpr.c:334-342 | the final count check accepts every tree |
| `KexprTrees.ParsePrinted` | liblinktool/klib/kexpr.c:254-352 | a well-written tree whose later arguments do not start with a sign is parsed to its reverse Polish notation |
| `KexprSigns.ParsedSigns` | liblinktool/klib/kexpr.c:214-221 | how many unary signs the parser outputs is decided by what precedes each sign |
| `KexprSigns.MisreadIff` | liblinktool/klib/kexpr.c:282-300 | signs are misread exactly if a later argument starts with one: a comma does not end a value |
| `KexprSigns.ParseIsExact` | liblinktool/klib/kexpr.c:254-352 | for well-written trees, parsing gives the reverse Polish notation if and only if no later argument starts with a sign |
| `KexprSigns.SignInSecondArgument` | liblinktool/klib/kexpr.c:282-300 | for example pow(x,-y) is not parsed to its reverse Polish notation |
| `KexprErrors.ParensChecked` | liblinktool/klib/kexpr.c:269-334 | unless a comma stops it, the parser reports a right parenthesis too many, or a left one, exactly if there is one |
| `KexprErrors.CommaOutside` | liblinktool/klib/kexpr.c:289-303 | a comma outside all parentheses is refused |
| `KexprErrors.OneValue` | liblinktool/klib/kexpr.c:334-343 | a text in order is accepted exactly if its elements, run, leave one value |
| `KexprEval.CheckBound` | liblinktool/klib/kexpr.c:371-375 | reports exactly whether some function has no body and some variable no value |
| `KexprEval.Execute` | liblinktool/klib/kexpr.c:378-394 | one element on the evaluation stack does what its definition says |
| `KexprEval.Eval` | liblinktool/klib/kexpr.c:366-399 | the evaluation stack, in place, runs the whole list |
| `KexprEval.RunTree` | liblinktool/klib/kexpr.c:377-395 | the reverse Polish notation of a tree, run on any stack, pushes the value of the tree and never underflows |
| `KexprEval.CallOfTwo` | liblinktool/klib/kexpr.c:381-386 | a user function of two arguments gets their real fields in order; its result is the real field, rounded towards zero from one half above in the integer field |
| `KexprEval.CallOfOne` | liblinktool/klib/kexpr.c:387-392 | the same with one argument |
| `KexprEval.CallAsParsed` | liblinktool/klib/kexpr.c:286-287 | `abs` is bound from the start; any other call is worth its first argument |
| `KexprEval.SetThenValue` | liblinktool/klib/kexpr.c:432-470 | what each field of a variable is after setting it, and that others stay |
| `KexprEval.SetVar` | liblinktool/klib/kexpr.c:432-470 | every occurrence of the variable is set, and they are counted |
| `KexprEval.SetIsBind` | liblinktool/klib/kexpr.c:432-470 | setting is binding in the environment |
| `KexprEval.UnsetAll` | liblinktool/klib/kexpr.c:508-515 | all variables are unmarked, values kept |
| `KexprEval.UnsetIsUnbind` | liblinktool/klib/kexpr.c:508-515 | which is the environment with nothing set |
| `KexprEval.SetFunc` | liblinktool/klib/kexpr.c:472-492 | a function is bound at every call with that many arguments, and these are counted |
| `KexprEval.SetFuncIsBind` | liblinktool/klib/kexpr.c:472-492 | which is binding it in the environment |
| `KexprEval.ParseThenEval` | liblinktool/klib/kexpr.c:254-396 | text of a tree, parsed, linked to an environment and evaluated, gives the value of the tree there |
| `Kbtree.GetAux` | liblinktool/klib/kbtree.h:104-117 | binary search in one node: the first equal key, or the last smaller one |
| `Kbtree.InChild` | liblinktool/klib/kbtree.h:120-131 | a key strictly between two separators is in the tree exactly when it is in the child between them |
| `Kbtree.KBTree.constructor` | liblinktool/klib/kbtree.h:60-75 | a new tree is empty and valid |
| `Kbtree.KBTree.Get` | liblinktool/klib/kbtree.h:120-131 | found exactly if stored, and then where |
| `KbtreeSpec.JoinSeq` | liblinktool/klib/kbtree.h:162-177 | joining two nodes around a key concatenates their keys in order |
| `KbtreeSpec.SplitKeeps` | liblinktool/klib/kbtree.h:162-177 | splitting a full child around its middle key keeps order, depth and node sizes |
| `KbtreeSpec.MergeKeeps` | liblinktool/klib/kbtree.h:249-258 | merging two small siblings around their separator does too |
| `KbtreeSpec.BorrowKeeps` | liblinktool/klib/kbtree.h:264-277 | and so does moving the border between two siblings |
| `Kbtree.KBTree.Split` | liblinktool/klib/kbtree.h:162-177 | in memory: the node with child i split, the second half at a new address, everything else untouched |
| `Kbtree.KBTree.MakeRoom` | liblinktool/klib/kbtree.h:190-194 | before the descent the chosen child has room and its separators enclose the key |
| `Kbtree.KBTree.PutAux` | liblinktool/klib/kbtree.h:178-198 | one key is inserted in order below a node with room; shape and the rest of the memory are kept |
| `Kbtree.KBTree.GrowRoot` | liblinktool/klib/kbtree.h:203-211 | a full root is split under a new one without changing the keys |
| `Kbtree.KBTree.Put` | liblinktool/klib/kbtree.h:199-213 | exactly one key is added in order, all invariants kept; the result points to it |
| `Kbtree.KBTree.Merge` | liblinktool/klib/kbtree.h:249-258 | in memory: two siblings and their separator become one node, the other node is freed |
| `Kbtree.KBTree.BorrowLeft` | liblinktool/klib/kbtree.h:264-270 | in memory: the right sibling gains a key through the separator |
| `Kbtree.KBTree.BorrowRight` | liblinktool/klib/kbtree.h:271-277 | in memory: the left sibling gains a key through the separator |
| `Kbtree.KBTree.Refill` | liblinktool/klib/kbtree.h:262-298 | whatever branch is taken, the child to descend into has a key to spare and still holds what it held |
| `Kbtree.KBTree.ReplaceKey` | liblinktool/klib/kbtree.h:238-248 | a found key is replaced by its predecessor or successor, taken from a child that can spare one |
| `Kbtree.KBTree.DelAux` | liblinktool/klib/kbtree.h:221-300 | one occurrence of the key, or the last, or the first key of the subtree is taken out and returned; shape and the rest of the memory are kept |
| `Kbtree.KBTree.ShrinkRoot` | liblinktool/klib/kbtree.h:307-312 | a root without keys gives way to its child |
| `Kbtree.KBTree.Del` | liblinktool/klib/kbtree.h:301-314 | exactly one occurrence of a stored key is removed, all invariants kept |
| `Kbtree.ApplyAll` | liblinktool/klib/kbtree.h:120-314 | after any run of put and del the tree is valid and holds exactly the replayed multiset of keys |
| `KallocState.StopsAtGap` | liblinktool/klib/kalloc.c:102-103 | both exits of the search loop of kfree hold exactly at the block before the gap, the wrap-around included |
| `Kalloc.KMem.FindGap` | liblinktool/klib/kalloc.c:102-103 | so the loop ends there |
| `KallocState.RightMeets` | liblinktool/klib/kalloc.c:104-109 | the block behind touches exactly if it is free and in the same core; the first panic cannot happen |
| `KallocState.LeftMeets` | liblinktool/klib/kalloc.c:111-117 | the same for the block before and the second panic |
| `Kalloc.KMem.WriteFree` | liblinktool/klib/kalloc.c:104-117 | the headers after merging on neither, either or both sides |
| `KallocBlocks.FreedKeeps` | liblinktool/klib/kalloc.c:104-117 | merging keeps the tiling of the cores and takes exactly the freed block from the live ones |
| `KallocState.FreedRing` | liblinktool/klib/kalloc.c:104-117 | the pointers form one circle again in all four cases |
| `Kalloc.KMem.Free` | liblinktool/klib/kalloc.c:72-118 | a live block becomes free; the invariant and the contents of all other live blocks are kept |
| `Kalloc.KMem.AddCore` | liblinktool/klib/kalloc.c:61-67 | a new core is one block that fills it, outside all others |
| `Kalloc.KMem.MoreCore` | liblinktool/klib/kalloc.c:57-70 | the core is large enough and its block is free and at the head of the list |
| `KallocBlocks.CutKeeps` | liblinktool/klib/kalloc.c:133-141 | taking a free block, or its end, keeps the tiling and adds exactly one live block of that size |
| `Kalloc.KMem.Take` | liblinktool/klib/kalloc.c:133-141 | in memory: the block leaves the list or shrinks, and the list starts at its predecessor |
| `KallocState.UnitsAreEnough` | liblinktool/klib/kalloc.c:128 | one unit more than the fewest that hold the size word and all the requested bytes |
| `KallocState.CoreIsEnough` | liblinktool/klib/kalloc.c:61 | a core is the least multiple of the minimum with room for the request and its header |
| `Kalloc.KMem.Fit` | liblinktool/klib/kalloc.c:132-146 | the search ends with one new live block: the end of the first free block that fits, going round from behind the head of the list, which moves there; a core is added at most once, and exactly if no free block fits |
| `Kalloc.KMem.Malloc` | liblinktool/klib/kalloc.c:120-147 | the same in bytes; nothing in any live block changes |
| `Kalloc.KMem.Poke` | liblinktool/klib/kalloc.c:72-147 | a caller's writes inside its block, size word excepted, disturb nothing |
| `KallocBlocks.LiveApart` | liblinktool/klib/kalloc.c:120-147 | live blocks overlap nothing |
| `KallocBlocks.Conservation` | liblinktool/klib/kalloc.c:179-198 | core headers, free units and live units together are exactly the cores |
| `Kalloc.KMem.Stat` | liblinktool/klib/kalloc.c:179-198 | the figures reported are exact and add up, the largest core included; the panic cannot happen; with nothing live there are as many free blocks as cores |
| `KallocBlocks.WholeCores` | liblinktool/klib/kalloc.c:179-198 | with nothing live each core is one free block |
| `Kalloc.FreeAll` | liblinktool/klib/kalloc.c:72-118 | freeing all live blocks in any order gets there |
| `JsonTree.CompareZero` | liblinktool/cJSON/cJSON_Utils.c:83-109 | keys compare equal only if they are equal |
| `JsonKeys.ComparedAtFirstDifference` | liblinktool/cJSON/cJSON_Utils.c:83-109 | the first difference decides, told by the alphabets; without regard to case a capital counts as the small letter |
| `JsonKeys.SameKeys` | liblinktool/cJSON/cJSON_Utils.c:83-109 | without regard to case keys are the same exactly if they agree letter by letter |
| `JsonTree.SortList` | liblinktool/cJSON/cJSON_Utils.c:480-589 | for keys that are distinct to the comparison: the same members in strictly increasing order, the very list that an insertion sort gives |
| `JsonTree.Merge` | liblinktool/cJSON/cJSON_Utils.c:529-588 | two sorted lists without a key in common to the comparison, merged |
| `JsonCompare.CompareJson` | liblinktool/cJSON/cJSON_Utils.c:600-686 | true exactly for trees that are equal up to member order at every depth, and up to letter case of keys unless case counts |
| `JsonPatch.ApplyIsRfc` | liblinktool/cJSON/cJSON_Utils.c:1332-1371 | applying the members of a patch one after the other gives the member-by-member function of section 2 of RFC 7396, when no key comes twice |
| `JsonPatch.Detach` | liblinktool/cJSON/cJSON.c:2241-2251 | the member with that key, if any, and the rest |
| `JsonPatch.MergePatch` | liblinktool/cJSON/cJSON_Utils.c:1315-1372 | the result denotes the MergePatch function of RFC 7396 of target and patch; with a key twice in the patch, its members in turn |
| `JsonGenerate.GenerateMergePatch` | liblinktool/cJSON/cJSON_Utils.c:1384-1460 | the loops over two sorted lists compute the patch that the lemmas below are about, for all objects whose keys are distinct to the comparison |
| `JsonExact.InBoth` | liblinktool/cJSON/cJSON_Utils.c:1407-1444 | what becomes of a key of both objects: the first step of the walk that meets it decides |
| `JsonExact.Exact` | liblinktool/cJSON/cJSON_Utils.c:1315-1460 | the generated patch, applied, gives the goal if and only if it is reached: every member is met in both lists at once and equal or itself reached, or holds no null and is not put before it is removed |
| `JsonUpdate.MetAtOnce` | liblinktool/cJSON/cJSON_Utils.c:1407-1444 | in lists that are sorted as they are walked every common key is met in both at once |
| `JsonUpdate.AlikeResult` | liblinktool/cJSON/cJSON_Utils.c:1315-1460 | where sorting and walking order the keys alike, the patch gives what the function of RFC 7396 gives with the ideal patch; when case counts the top level needs no condition |
| `JsonIdeal.IdealPatch` | liblinktool/cJSON/cJSON_Utils.c:1386-1460 | there the patch is the ideal one: a member for every key that differs and for no other, and no patch exactly for equal objects |
| `JsonUpdate.AlikeIsKept` | liblinktool/cJSON/cJSON_Utils.c:1315-1460 | there the goal is reached if and only if no null member has to be set |
| `JsonUpdate.PlainAlike` | liblinktool/cJSON/cJSON_Utils.c:1399-1412 | keys without upper-case letters are ordered alike |
| `JsonUpdate.LosesMember` | liblinktool/cJSON/cJSON_Utils.c:1399-1444 | from {"a":1,"B":2} to {"B":2} without regard to case the patch puts B, then removes a and B, and gives the empty object |
| `JsonUpdate.LosesNested` | liblinktool/cJSON/cJSON_Utils.c:1429-1433 | the same one level down, where case counts at the top |
| `JsonValue.RoundTrip` | liblinktool/cJSON/cJSON_Utils.c:1315-1460 | applying the ideal patch gives the goal if and only if no null member has to be set |
| `JsonValue.NullIsNotSet` | liblinktool/cJSON/cJSON_Utils.c:1332-1346 | from {} to {"a":null} the patch changes nothing |
| `JsonValue.SolidIsKept` | liblinktool/cJSON/cJSON_Utils.c:1315-1460 | the condition holds whenever the goal has no null members outside arrays |
| `JsonUpdate.Update` | liblinktool/cJSON/cJSON_Utils.c:1315-1460 | generating and applying to a fresh copy, on trees: the goal exactly under these conditions |
| `CJsonText.QuotedBack` | liblinktool/cJSON/cJSON.c:767-893 | every string without NUL, quoted and escaped, is scanned and read back |
| `CJsonText.CodePointBack` | liblinktool/cJSON/cJSON.c:646-764 | every code point written as \\u escapes, surrogate pairs included, is read as its UTF-8 form |
| `CJsonStrings.Utf8Holds` | liblinktool/cJSON/cJSON.c:709-758 | a code point is written in the UTF-8 form of RFC 3629, told by the arithmetic of its bytes |
| `CJsonNumber.Recovered` | liblinktool/cJSON/cJSON.c:536-573 | the text printed for a finite number is read as that number or as one that compare_double takes for near |
| `CJsonNumber.RunInside` | liblinktool/cJSON/cJSON.c:317-347 | the characters collected for strtod are those of the numeral, if no character of a number follows it |
| `CJsonParse.ParseBuffer.SkipWhitespace` | liblinktool/cJSON/cJSON.c:1032-1055 | on to the next character that is no blank, or to the last one |
| `CJsonParse.ParseBuffer.ParseString` | liblinktool/cJSON/cJSON.c:767-893 | a literal is exactly what scanning and unescaping make of it, failures included, and is written within the buffer allocated for it |
| `CJsonText.OneFits` | liblinktool/cJSON/cJSON.c:778-815 | no character or escape sequence stands for more bytes than the first pass leaves room for, wherever reading and that pass fall out of step |
| `CJsonParse.ParseBuffer.ReadLiteral` | liblinktool/cJSON/cJSON.c:816-873 | every write of the second pass, the closing zero included, is inside the buffer |
| `CJsonParse.ParseBuffer.ParseNumber` | liblinktool/cJSON/cJSON.c:301-375 | the number that strtod takes of the characters collected, and the cursor behind what it took |
| `CJsonParse.ParseBuffer.CopyNumber` | liblinktool/cJSON/cJSON.c:317-347 | the loop collects the longest run of at most 63 characters of a number, within its buffer |
| `CJsonParse.ParseBuffer.ParseValue` | liblinktool/cJSON/cJSON.c:1306-1358 | on any text whatever reads what the function `ReadValue` reads, failures included, and nothing beyond the text |
| `CJsonParse.ParseBuffer.ParseArray` | liblinktool/cJSON/cJSON.c:1435-1530 | the same for arrays, whose loop reads item by item |
| `CJsonParse.ParseBuffer.ParseObject` | liblinktool/cJSON/cJSON.c:1595-1705 | the same for objects, member by member |
| `CJsonGrammar.StringRead` | liblinktool/cJSON/cJSON.c:767-893 | a string literal is read as what it stands for |
| `CJsonTexts.NumberFound` | liblinktool/cJSON/cJSON.c:301-375 | whatever strtod takes is a number of the grammar |
| `CJsonGrammar.ValueRead` | liblinktool/cJSON/cJSON.c:1306-1358 | every value written by the grammar is read, with the tree it stands for, exactly if it is not nested too deeply |
| `CJsonGrammar.ArrayRead` | liblinktool/cJSON/cJSON.c:1435-1530 | the same for arrays with any blanks |
| `CJsonGrammar.ObjectRead` | liblinktool/cJSON/cJSON.c:1595-1705 | the same for objects |
| `CJsonGrammar.StringFound` | liblinktool/cJSON/cJSON.c:767-893 | whatever is read as a string is a literal of the grammar |
| `CJsonTexts.ValueFound` | liblinktool/cJSON/cJSON.c:1306-1358 | whatever is read as a value is written by the grammar, and the tree is the one it stands for |
| `CJsonTexts.ArrayFound` | liblinktool/cJSON/cJSON.c:1435-1530 | the same for arrays |
| `CJsonTexts.ObjectFound` | liblinktool/cJSON/cJSON.c:1595-1705 | the same for objects |
| `CJsonTexts.TextDerives` | liblinktool/cJSON/cJSON.c:1073-1132 | a text, with or without a byte order mark, is read exactly if it is in the grammar and not nested more than 1000 deep |
| `CJsonParse.Parse` | liblinktool/cJSON/cJSON.c:1073-1132 | for every string: success exactly on the texts of the grammar within that limit, with the tree the text stands for and the place where parsing ended |
| `CJsonLimits.BlankCharacters` | liblinktool/cJSON/cJSON.c:1032-1055 | blanks are the space and all control characters |
| `CJsonLimits.NumberCharacters` | liblinktool/cJSON/cJSON.c:317-347 | a number starts with a digit or a minus sign and is made of digits, signs, a point and e or E |
| `CJsonLimits.MarkSkipped` | liblinktool/cJSON/cJSON.c:1058-1070 | a byte order mark in front makes no difference |
| `CJsonLimits.DepthLimit` | liblinktool/cJSON/cJSON.c:1443-1446 | a thousand nested arrays are read, and not one more |
| `CJsonWritten.PrintedText` | liblinktool/cJSON/cJSON.c:1361-1819 | what the printer writes, formatted or not, is what the grammar writes for its syntax |
| `CJsonWritten.PrintedTree` | liblinktool/cJSON/cJSON.c:1361-1819 | that syntax is well formed and stands for the tree printed, but for numbers that are read as others |
| `CJsonWritten.PrintedDerives` | liblinktool/cJSON/cJSON.c:1181-1243 | every printed text is in the grammar |
| `CJsonWritten.RereadSame` | liblinktool/cJSON/cJSON.c:543-606 | reading back gives the same tree if and only if each of its numbers is finite and is read back as itself |
| `CJsonStrings.StringMeaning` | liblinktool/cJSON/cJSON.c:767-893 | every string literal of section 7 of RFC 8259 stands for what its characters, short escapes and \\u escapes stand for |
| `CJsonStrings.Refused` | liblinktool/cJSON/cJSON.c:646-764 | an unknown or incomplete escape and half a surrogate pair are refused wherever they stand |
| `CJsonLayout.EscapedAs` | liblinktool/cJSON/cJSON.c:952-1005 | quotation mark, backslash and control characters are escaped, in the short form if there is one, and nothing else is |
| `CJsonLayout.CompactText` | liblinktool/cJSON/cJSON.c:1533-1592 | unformatted text: brackets, commas and colons with no blank |
| `CJsonLayout.LinesText` | liblinktool/cJSON/cJSON.c:1708-1819 | formatted text: one member to a line, indented by tabs, a tab behind the colon; array items on one line |
| `CJsonLayout.NumberAs` | liblinktool/cJSON/cJSON.c:558-573 | which of the two formats a number is printed in |
| `CJsonLayout.WordsAre` | liblinktool/cJSON/cJSON.c:1372-1399 | the words for null, true and false |
| `CJsonPrint.PrintBuffer.Ensure` | liblinktool/cJSON/cJSON.c:435-520 | success means room; with a buffer of the printer's own, or enough of the caller's, it succeeds |
| `CJsonPrint.PrintBuffer.UpdateOffset` | liblinktool/cJSON/cJSON.c:523-533 | the offset moves to the end of what was printed |
| `CJsonPrint.PrintBuffer.PrintStringPtr` | liblinktool/cJSON/cJSON.c:896-1015 | the string quoted and escaped, within the room asked for |
| `CJsonPrint.PrintBuffer.PrintNumber` | liblinktool/cJSON/cJSON.c:543-606 | the text of the number, NUL behind it, never beyond the buffer |
| `CJsonPrint.PrintBuffer.PrintValue` | liblinktool/cJSON/cJSON.c:1361-1432 | the text of the tree behind what was there, NUL behind it, never beyond the buffer |
| `CJsonPrint.PrintBuffer.PrintArray` | liblinktool/cJSON/cJSON.c:1533-1592 | the same for arrays |
| `CJsonPrint.PrintBuffer.PrintObject` | liblinktool/cJSON/cJSON.c:1708-1819 | the same for objects, indented by depth when formatted |
| `CJsonPrint.Print` | liblinktool/cJSON/cJSON.c:1181-1243 | the whole text |
| `CJsonPrint.PrintPreallocated` | liblinktool/cJSON/cJSON.c:1286-1303 | into the caller's buffer: complete or refused, and never refused with one character to spare behind the NUL |
| `CJson.RoundTrip` | liblinktool/cJSON/cJSON.c:1073-1254 | printing, formatted or not, then parsing gives the tree with its numbers reread if it is nested at most 1000 deep, and is refused otherwise; it is the same tree exactly if every number survives |

## Left out

- Device, socket, timer and cloud code (`x50/`, `alinksdk/`, `liblinktool/tcp`, `timer`, `signal`, `tool`), and the other files of `klib` and `cJSON`.
- `khashl.h` and `kavl.h`: not part of this model; the trees of `kavl.h` are those of `krmq.h` without the least nodes.
- Krmq.KRmq.Insert: keys and weights are integers that stay as they are while a node is in a tree; the tree has fewer than 2^32 nodes, as its 32-bit sizes ask. Iterators and `krmq_free` are left out.
- Krmq.KRmq.Erase: removing the first node asks for a tree that has one, as the source does.
- Failing memory allocation, and sizes that wrap around near the limits of the machine integers.
- KtFor.EachIndexExactlyOnce: a counter beyond `LONG_MAX`, which could make a scan find no worker, leaves the modelled behaviour; `KtFor.CountersBounded` shows for which sizes this cannot happen and `KtFor.MaximalRunCompletes` asks for one of them.
- `kt_forpool`, the thread pool variant of `kt_for`.
- Khash.KHash.Put: the load factor 0.77 is an exact fraction, and bucket counts are not bounded by 32 bits; string keys are compared like all others.
- KexprTrees.ParsePrinted: works on tokens; splitting the text into tokens is not modelled, nor is what the built-in operators compute.
- KexprEval.Eval: asks for a list that never pops an empty stack, as `KexprEval.RunTree` shows of every parsed tree; the count check at the end of the parser alone does not imply it for other lists.
- Kbtree.KBTree.Del: the key must be stored, since the source then has no defined result; keys are integers, so that keys that compare equal are equal. The statistics field `n_nodes`, iterators and `kb_intervalp` are left out, and the fixed arrays inside a node are sequences whose length is shown never to exceed `2t - 1`.
- Kalloc.KMem.Malloc: the record of the allocator itself is not adjacent to a core, which the source assumes too; `kcalloc` and `krealloc` are left out.
- JsonPatch.MergePatch: member lists are sequences that are taken apart and rebuilt, so relinking in place, freeing, and the effect that sorting has on the arguments are not captured; the target has no key twice. Numbers are compared exactly.
- JsonGenerate.GenerateMergePatch: objects have no key twice to the comparison that sorts them, and objects further down none that differ in letter case only.
- JsonUpdate.Update: the patch is applied to a fresh copy. Applied to the tree it was generated from, it would meet list heads whose `prev` is stale after sorting, which `cJSON_AddItemToObject` relies on.
- JsonValue.Rfc, JsonValue.Diff, JsonValue.Kept and JsonExact.Reaches carry no contracts of their own; the lemmas named above are about them.
- CJsonParse.ParseBuffer.ParseValue: the text ends in NUL, as `cJSON_Parse` provides it, and the entry points that take a length instead are left out; where the cursor stands after a failure is not stated. The decimal point of the locale is `.`, and `valueint` is left out.
- CJsonGrammar.StringRead: what is between quotation marks is taken for a literal as `CJsonText.Scan` and `CJsonText.Unescape` take it. `CJsonStrings.StringMeaning` says what that is for every literal of section 7 of RFC 8259; beyond those the parser also takes control characters and malformed hexadecimal digits, and where its two passes fall out of step only what they do is stated.
- CJsonPrint.Print: raw items, items of invalid type and keys that are NULL are left out, here and in `CJsonPrint.PrintBuffer.PrintValue`, `CJsonPrint.PrintPreallocated` and `CJson.RoundTrip`.
- KtFor.MaximalRunCompletes: asks for a size for which no counter reaches `LONG_MAX`, as said above.
- JSON Patch and JSON Pointer, minification, and `cJSON_PrintBuffered`.
