# Verified models of the CIS415 projects

Dafny models of the data structures and protocols in this repository, with proofs of what they are for:
the in-place AVL set, the disk driver's voucher protocol, the list with a free list, the chained hash table
next to the simple list it replaces, the translation of file-name patterns, the word reader and the decimal
text routines. `dafny verify dfyconfig.toml` checks everything.

- **`AvlTree`, `TreeNodes`, `TreeOrder`, `TreeSet`** (`extraCredit/treeset.c`). Nodes are heap objects whose
  `link`, `element` and `balance` are overwritten in place. A ghost `Tree` names the node, element and balance at
  every position, so `Heap(t)` says that the heap is exactly `t`, and the nodes of `t` are the footprint. Every
  method says which tree it leaves. The heights behind `done` are exact: `done` is 0 on return exactly when the
  subtree's height has changed. Elements are compared through a key and carry an identity the comparison does not
  see, so "the same element" and "an equal element" are different claims; keys are reals, into which every
  countable total order embeds.
- **`DiskDriver`, `DriverSafety`, `DriverRuns`, `DriverStatus`, `DriverCalls`** (`project2/diskdriver.c`). A transition system
  with one action per buffer operation, lock, wait, signal, unlock or private run of assignments, for any number
  of client threads. An invariant is kept by every action; conservation, capacities, one service per request,
  order of service, absence of deadlock and lost wake-ups, and a bound on the work left are consequences for every run;
  `DriverCalls` counts the calls and the device's results in the run itself.
- **`LinkedList`** (`extraCredit/linkedlist.c`). The ring through the sentinel, the free list, and the number of
  nodes ever allocated.
- **`MailEntry`, `MailList`, `MailTable`, `MailRuns`** (`project0/project0/mentry.c`, `mlistLL.c`, `mlist.c`). The
  32-bit hash, the list, the hash table up to and including its first resize, and the two side by side.
- **`GlobPattern`** (`extraCredit/file_crawler_single.c`). The translation, a small semantics for patterns and for
  extended regular expressions with search, anchors and line ends, and the equivalence.
- **`Words`, `Numbers`** (`project1/p1fxns.c`). Splitting a line into words and back, numbers to text and back.

Where the code and its own headers disagree, the model follows the code:

- `ts_pollFirst` and `ts_pollLast` leave the size field alone. `SizeDrift` says by how much the size is off in every
  run, `SizeCanDrift` gives a run, `IsEmpty` says when the emptiness test is wrong, and `GenArray` which cells of the
  array are then never written.
- `ts_remove` applies the caller's function to the element that takes the removed one's place when the removed
  one's node has two subtrees. `ReleasedIsRemoved` says exactly when the right element is passed, and
  `RemoveMiddle` gives sets in which it is not.
- `redeem_voucher` reads the status a second time after it has recycled the voucher. `StatusReturned` says exactly
  which request's status that is, and `StatusCanBeAnothers` gives a run in which it is not the redeemed one's.
- `resize` does not put the dummy tails back, so a lookup misses the last entry of every chain: `MList.Lookup` and
  `HiddenEntries` state this exactly, and `AddColliders` gives additions after which it happens.
- `redeem_voucher` hands the descriptor to the caller for successful writes, where the header says reads:
  `DescriptorsReturned` says for which transfers it is handed over and for which it goes to the store.
- `cvtPattern` copies brackets, so a pattern's `[!` loses its meaning: `TranslationMeaning` and `NegationLost`.
- `p1atoi` does not read the minus sign that `p1itoa` writes: `TextRoundTrip`.

Allocation succeeds everywhere. Disk results, client behaviour and scheduling are arbitrary; clients redeem only
vouchers that were issued to a caller, each once per issue.
Plain `char` is taken as signed with 8 bits, and `unsigned` as having 32 bits.

## Model

| member | source | states |
|---|---|---|
| AvlTree.SingleRotatedSame | extraCredit/treeset.c:78-84 | a single rotation in either direction keeps the nodes, the elements, the node count, the search order and the absence of sharing |
| AvlTree.DoubleRotatedSame | extraCredit/treeset.c:86-96 | the same for a double rotation |
| AvlTree.DoubleRotationLevels | extraCredit/treeset.c:98-112 | with the case table for the balances, a double rotation on the side that is two levels too high makes every stored balance right again and takes one level off |
| AvlTree.SingleRotationLevels | extraCredit/treeset.c:118-120 | the same for a single rotation, which takes a level off exactly when the high child leans outward |
| AvlTree.InsertBalancedRestores | extraCredit/treeset.c:114-126 | after a side has grown to be two higher, rebalancing gives an AVL tree of the same set, one level lower |
| AvlTree.RemoveBalancedRestores | extraCredit/treeset.c:149-166 | after a side has shrunk to be two lower, rebalancing gives an AVL tree of the same set, and its flag is 0 exactly when a level was lost |
| TreeNodes.SingleRotate | extraCredit/treeset.c:78-84 | overwriting the links leaves the rotated tree in the heap |
| TreeNodes.DoubleRotate | extraCredit/treeset.c:86-96 | overwriting the links leaves the doubly rotated tree in the heap |
| TreeNodes.AdjustBalance | extraCredit/treeset.c:98-112 | which of the three balances are set to what, by the inner grandchild's balance |
| TreeNodes.InsertBalance | extraCredit/treeset.c:114-126 | leaves the rebalanced tree in the heap |
| TreeNodes.AfterInsert | extraCredit/treeset.c:136-144 | the part after the recursion: a subtree that has grown gives an AVL tree of the same set, higher than before exactly when `done` stays 0 |
| TreeNodes.Insert | extraCredit/treeset.c:128-147 | inserting an absent key into any AVL search tree gives an AVL search tree of the old set and the new element, with one new node; `done` is 0 exactly when it is one level higher |
| TreeNodes.RemoveBalance | extraCredit/treeset.c:149-166 | leaves the rebalanced tree in the heap and reports whether the height is unchanged |
| TreeNodes.AfterRemove | extraCredit/treeset.c:194-200 | the part after the recursion: a subtree that has shrunk gives an AVL tree of the same set, lower than before exactly when `done` stays 0 |
| TreeNodes.Heir | extraCredit/treeset.c:184-189 | the root's element is overwritten by the greatest element of its left subtree |
| TreeNodes.HeirReplaces | extraCredit/treeset.c:184-193 | taking the heir out of the left subtree and putting it at the root removes exactly the root's element, and keeps the search order |
| TreeNodes.Remove | extraCredit/treeset.c:168-203 | removing a present key from any AVL search tree gives an AVL search tree of the old set without that element, one node fewer; `done` is 0 exactly when it is one level lower |
| TreeNodes.ReleasedIsRemoved | extraCredit/treeset.c:174-190 | the caller's function gets the removed element if and only if its node lacks a subtree |
| TreeNodes.ReleasedIsPredecessor | extraCredit/treeset.c:179-190 | otherwise it gets the greatest of all elements below the removed one |
| TreeSets.RemoveMiddle | extraCredit/treeset.c:179-190 | removing the middle one of any three elements applies the caller's function to the lowest one, which stays in the set |
| TreeOrder.CountAtLeastFib | extraCredit/treeset.c:128-203 | an AVL tree of height h has at least Fib(h+2)-1 nodes |
| TreeOrder.HeightLogarithmic | extraCredit/treeset.c:208-220 | so 2 to the power of half of any number of steps down the tree is at most the node count plus one |
| TreeOrder.InorderIncreasing | extraCredit/treeset.c:225-231 | the in-order walk meets the elements in strictly increasing order |
| TreeOrder.IncreasingUnique | extraCredit/treeset.c:225-231 | and there is only one such sequence for a set |
| TreeSets.MembersOfRun | extraCredit/treeset.c:262-462 | in every run an element is in the set, identity included, exactly when some addition has brought it in while its key was absent and no later operation removed its key, polled it or cleared the set |
| TreeSets.SizeDrift | extraCredit/treeset.c:262-462 | in every run of operations the size field is the number of elements plus the number of successful polls since the last clear |
| TreeSets.SizeCanDrift | extraCredit/treeset.c:428-437 | an addition and a poll leave an empty set with size 1 |
| TreeSets.Find | extraCredit/treeset.c:208-220 | finds the element with the key or reports that there is none, with as many comparisons as there are nodes on the way, which is at most the height |
| TreeSets.Populate | extraCredit/treeset.c:225-231 | appends the in-order walk to the filled part of the buffer and writes nothing else |
| TreeSets.TreeSet.Add | extraCredit/treeset.c:262-270 | adds the element and counts it unless its key is present, and then changes nothing; keeps the AVL invariant |
| TreeSets.TreeSet.Remove | extraCredit/treeset.c:450-458 | removes the element with the key if there is one, and nothing else; says what the caller's function gets |
| TreeSets.TreeSet.PollFirst | extraCredit/treeset.c:428-437 | returns the first element of the in-order walk and leaves the rest of it; the size field stays |
| TreeSets.Drain | extraCredit/treeset.c:428-437 | polling until nothing is left ends, yields exactly the in-order walk and empties the set |
| TreeSets.TreeSet.PollLast | extraCredit/treeset.c:439-448 | the same from the other end |
| TreeSets.TreeSet.Clear | extraCredit/treeset.c:316-320 | empties the set and puts the size right again |
| TreeSets.TreeSet.Contains | extraCredit/treeset.c:322-324 | membership, with a logarithmic number of comparisons |
| TreeSets.TreeSet.IsEmpty | extraCredit/treeset.c:386-388 | right if and only if no poll went uncounted or the set is not empty |
| TreeSets.TreeSet.Ceiling | extraCredit/treeset.c:294-314 | the least element of the whole set that is not below the argument, or nothing exactly when there is none |
| TreeSets.TreeSet.Floor | extraCredit/treeset.c:345-365 | the greatest element that is not above the argument |
| TreeSets.TreeSet.Higher | extraCredit/treeset.c:367-384 | the least element above the argument |
| TreeSets.TreeSet.Lower | extraCredit/treeset.c:409-426 | the greatest element below the argument |
| TreeSets.TreeSet.GenArray | extraCredit/treeset.c:470-483 | an array of `size` cells that starts with the in-order walk; the cells never written are as many as polls went uncounted |
| DiskDriver.InitPool | project2/diskdriver.c:96-105 | initialisation puts every voucher into the pool once, without filling it |
| DriverSafety.StepInv | project2/diskdriver.c:47-231 | every action of every thread keeps the invariant that ties places, tickets, locks, program counters, buffers and requests together |
| DriverSafety.Room | project2/diskdriver.c:96-107 | the three buffers hold each voucher at most once, and fewer than all when one is elsewhere |
| DriverRuns.VouchersConserved | project2/diskdriver.c:47-231 | in every reachable state every voucher is in exactly one of: pool, being issued, read queue, write queue, held by a worker, completed and not yet recycled |
| DriverRuns.BuffersNeverFill | project2/diskdriver.c:96-227 | in every reachable state: enqueues never block or fail, so the branches for a full request queue are unreachable, and recycling never blocks while holding the mutex |
| DriverCalls.CallsBecomeRequests | project2/diskdriver.c:129-189 | in every run, the calls for a kind of transfer with a descriptor are as many as the requests for it and the clients that have not queued theirs yet |
| DriverRuns.ServedExactlyOnce | project2/diskdriver.c:47-213 | a request is served at most once, by the worker of its kind, with its own descriptor; one not served is still queued or held; whoever passes the wait loop has read the status of the single service of its request |
| DriverCalls.ResultsAreServices | project2/diskdriver.c:47-79 | in every run, the results that the device returns to a worker are as many as the requests served by it with that result |
| DriverRuns.RedeemerUnique | project2/diskdriver.c:207-227 | no two clients are inside a redemption of one voucher |
| DriverRuns.OrderOfService | project2/diskdriver.c:47-181 | sectors reach read_sector and write_sector in exactly the order in which they were put on their queue, with at most the queue and one more outstanding |
| DriverCalls.ServedInOrderQueued | project2/diskdriver.c:47-181 | in every run, the descriptors with which a worker calls the device are the first of those that clients put on its queue, in that order |
| DriverCalls.PoolInOrder | project2/diskdriver.c:131-227 | in every run, vouchers are taken from the pool in the order in which they came back |
| DriverCalls.DescriptorsReturned | project2/diskdriver.c:213-224 | in every reachable state, the store has got each descriptor exactly as often as reads with it were redeemed past that point, and callers exactly as often as writes with it were tested and had succeeded |
| DriverRuns.InternalDecreases | project2/diskdriver.c:47-231 | every action other than a new call, a new redemption or a spurious wake-up leaves strictly less to do |
| DriverRuns.InternalRunBounded | project2/diskdriver.c:47-231 | so only boundedly many such actions can happen in a row |
| DriverRuns.SettledIsDone | project2/diskdriver.c:47-228 | when none can happen any more, every redemption has returned and every request has been served; a client is held up only if all vouchers are completed and nobody redeems any of them: no deadlock, no lost wake-up |
| DriverCalls.SettledCalls | project2/diskdriver.c:47-228 | then every call of the run has been served once, by the worker of its kind and with its descriptor, but for those that wait for a voucher while the pool is empty |
| DriverStatus.StepHistory | project2/diskdriver.c:47-231 | every action keeps this: a voucher's status field is that of the latest served request with that voucher, and a client that leaves a redemption remembers a served request and its status |
| DriverStatus.StatusReturned | project2/diskdriver.c:227-229 | the value returned is the status of the latest served request of the voucher, which is the redeemed one exactly while no later one has been served; so it is the tested status if and only if no later one has been served or the latest got the same status |
| DriverStatus.StatusCanBeAnothers | project2/diskdriver.c:227-229 | a reachable state in which it gives another request's |
| LinkedLists.RoundUpIsLeast | extraCredit/linkedlist.c:40 | the allocation bound is the least multiple of the batch size that is at least the high-water mark |
| LinkedLists.InsertThenRemove | extraCredit/linkedlist.c:141-157 | where every element is after an insertion, which a removal at the index undoes |
| LinkedLists.RemoveThenInsert | extraCredit/linkedlist.c:237-253 | where every element is after a removal, which an insertion at the index undoes |
| LinkedLists.LinkedList.PutEntry | extraCredit/linkedlist.c:58-62 | puts the node at the front of the free list |
| LinkedLists.LinkedList.GetEntry | extraCredit/linkedlist.c:64-80 | takes a node that is not in use from the free list, after allocating a batch if it was empty; the list is unchanged |
| LinkedLists.LinkedList.Link | extraCredit/linkedlist.c:130-135 | inserts the node into the ring after position i, also when both neighbours are the sentinel |
| LinkedLists.LinkedList.Unlink | extraCredit/linkedlist.c:232-235 | removes exactly the node at that position from the ring |
| LinkedLists.LinkedList.Insert | extraCredit/linkedlist.c:141-157 | inserts at the index, or fails exactly when it is past the end; nodes allocated = in use + free = least multiple of 128 that is at least the greatest size so far |
| LinkedLists.LinkedList.AddFirst | extraCredit/linkedlist.c:159-170 | is insertion at 0 |
| LinkedLists.LinkedList.AddLast | extraCredit/linkedlist.c:172-183 | is insertion at the size |
| LinkedLists.LinkedList.Purge | extraCredit/linkedlist.c:99-110 | moves every node in use to the free list, in reverse order |
| LinkedLists.LinkedList.Clear | extraCredit/linkedlist.c:185-190 | empties the list and loses no node |
| LinkedLists.LinkedList.Remove | extraCredit/linkedlist.c:237-253 | removes and returns the element at the index |
| LinkedLists.LinkedList.RemoveFirst | extraCredit/linkedlist.c:255-267 | removes and returns the first element |
| LinkedLists.LinkedList.RemoveLast | extraCredit/linkedlist.c:269-281 | removes and returns the last element |
| LinkedLists.LinkedList.Get | extraCredit/linkedlist.c:192-205 | the element at the index |
| LinkedLists.LinkedList.Set | extraCredit/linkedlist.c:283-297 | replaces the element at the index and returns the old one |
| LinkedLists.LinkedList.GenArray | extraCredit/linkedlist.c:308-321 | the elements in order |
| MailEntries.HelpHash | project0/project0/mentry.c:74-84 | the wrapping loop computes the string's polynomial in 31 modulo 2^32 |
| MailEntries.PolyIsPowerSum | project0/project0/mentry.c:74-84 | that polynomial is the sum of the characters times powers of 31, the first with the greatest power |
| MailEntries.MeHash | project0/project0/mentry.c:87-96 | the hash is the sum of the two polynomials and the house number, modulo 2^32 and the table size |
| MailEntries.HashOfFields | project0/project0/mentry.c:87-96 | the sums of powers of surname and zip code and the house number enter, the address does not |
| MailEntries.SameButAddress | project0/project0/mentry.c:106-115 | entries compare equal exactly when nothing but their addresses differs |
| MailEntries.FirstSameIsLookup | project0/project0/mlistLL.c:29-56 | after any additions, the first equal entry that was added meets the specification of a lookup |
| MailEntries.FirstSameIsFirst | project0/project0/mlistLL.c:47-56 | that entry is the first of the run that agrees in everything but the address |
| MailEntries.AddressPlaysNoPart | project0/project0/mlistLL.c:47-56 | the address in the question does not matter |
| MailLists.MList.Add | project0/project0/mlistLL.c:29-44 | follows the specification of additions |
| MailLists.MList.Lookup | project0/project0/mlistLL.c:47-56 | follows the specification of lookups |
| MailTables.SearchMeaning | project0/project0/mlist.c:187-212 | what looking at all nodes of a chain but the last means for the whole table |
| MailTables.MList.Lookup | project0/project0/mlist.c:187-212 | with dummy tails, follows the specification of lookups; in any table, misses a stored entry exactly when it is one of the hidden ones, in the last node of its chain |
| MailTables.MList.Append | project0/project0/mlist.c:153-176 | writes the entry into the dummy of its chain and adds a new dummy; the rest of the table is unchanged |
| MailTables.Add | project0/project0/mlist.c:137-184 | follows the specification of additions, and resizes exactly when the entry is new and more stored entries had its hash than the table has chains |
| MailTables.MList.Relink | project0/project0/mlist.c:99-121 | links a node at the end of its chain, in place of the dummy if it is the first |
| MailTables.ReceivedNodes | project0/project0/mlist.c:99-121 | linking one more node gives its entry that node and leaves every other entry where it was |
| MailTables.Resize | project0/project0/mlist.c:68-133 | every old node that holds an entry is linked exactly once, into the chain of its hash modulo the doubled size, and nothing else is linked |
| MailTables.HiddenEntries | project0/project0/mlist.c:109-121 | in any table as a resize leaves it, the hidden entries are the last of every row that is not empty, and there is one unless the table is empty |
| MailRuns.FillTable | project0/project0/finddupl.c:26-30 | adding any entries: the table resizes at the first addition that finds more than 20 other entries of its hash, and holds exactly what was added up to there |
| MailRuns.LookupInBoth | project0/project0/finddupl.c:26-30 | after any additions a lookup in the list answers with the first equal entry added, address included, and so does one in the table as long as no addition overflowed a chain |
| MailRuns.AddColliders | project0/project0/mlist.c:109-121 | twenty-two additions after which the table has resized and hides an entry |
| GlobPatterns.CvtPattern | extraCredit/file_crawler_single.c:27-51 | writes the translation of any C string and a terminator, at most 2n+2 characters and the terminator, and nothing beyond; a pattern without '*', '.' and '?' is copied between the anchors |
| GlobPatterns.TranslatedConcat | extraCredit/file_crawler_single.c:31-48 | patterns are translated piece by piece |
| GlobPatterns.TranslatedPieces | extraCredit/file_crawler_single.c:33-43 | the translations of the three special characters |
| GlobPatterns.ParseWritten | extraCredit/re.c:37-47 | parsing gives back every expression of the fragment, so each text has one reading |
| GlobPatterns.TranslationUnambiguous | extraCredit/file_crawler_single.c:27-51 | the translation is the text of the anchored items of the pattern and of no other expression |
| GlobPatterns.ItemsMatch | extraCredit/file_crawler_single.c:31-48 | from every position, the items match exactly the rest of a name that the pattern matches |
| GlobPatterns.TranslationMeaning | extraCredit/file_crawler_single.c:13-51 | for every pattern of the fragment, brackets included, and every name without a newline, searching with the expression succeeds exactly when the pattern matches the whole name, an exclamation mark at the start of brackets being read as a character like any other |
| GlobPatterns.TranslationKeepsMeaning | extraCredit/file_crawler_single.c:13-51 | so exactly when the pattern matches the whole name, for patterns without negated brackets |
| GlobPatterns.NegationLost | extraCredit/file_crawler_single.c:44-45 | for a negated bracket and every one-character name: when the expression agrees with the pattern, which is at the exclamation mark only unless it begins a span |
| GlobPatterns.SourcesAndHeaders | extraCredit/patterns:12 | the translation of `*.[ch]`, which finds exactly the names that end in .c or .h |
| Words.P1StrChr | project1/p1fxns.c:41-48 | the index of the leftmost occurrence, or -1 exactly when there is none |
| Words.P1GetWord | project1/p1fxns.c:61-90 | copies the next word with its terminator, returns where the next call starts or -1 at the end, and writes nothing else |
| Words.WordsBounded | project1/thv1.c:60-75 | there are at most as many words as characters |
| Words.SplitCommand | project1/thv1.c:60-75 | the splitting loop ends, fills one buffer per word in order and stays inside its array |
| Words.WordOfWritten | project1/p1fxns.c:61-90 | reading at a written word gives that word and the position right behind it |
| Words.WordOfTail | project1/p1fxns.c:76-88 | at the end of a line there is no word, or, after a quote that is never closed, the rest of the line |
| Words.WordsRoundTrip | project1/p1fxns.c:61-90 | from any position of a line on, reading what was written from any words, quoted with a quote they do not contain or bare, with any blanks between and the last quote closed or not, gives back exactly the words |
| Words.EveryLineWritten | project1/p1fxns.c:61-90 | every line is written in that way |
| Numbers.P1Atoi | project1/p1fxns.c:173-179 | the number the leading digits stand for, without overflow on the way |
| Numbers.DecimalIsPlaceValues | project1/p1fxns.c:173-179 | that number is the sum of the place values of the digits, the first worth most |
| Numbers.P1Itoa | project1/p1fxns.c:184-210 | writes the decimal text and its terminator, with at most eleven characters in the scratch buffer |
| Numbers.TextRoundTrip | project1/p1fxns.c:173-210 | reading the written text gives the number back if and only if it is not negative; the text of a negative number is the minus sign and the digits of its absolute value; at most ten digits, and no leading zero but for zero |

## Left out

- Directory walking, printing, argument handling, `regexec`, `me_get`, the iterator and the process and signal code: input and output or foreign libraries.
- `ts_destroy`, `ll_destroy`, `ml_destroy`, failing allocations and the callbacks of clear and destroy.
- TreeNodes.Remove: is called only with keys that are present, as its callers check; with an absent key the code would spoil balances.
- DiskDriver.Init: the bounded buffers, the descriptor store and the disk device follow their headers, since their implementations are not part of this model.
- Promptness of the nonblocking calls, which wait for a voucher like the blocking ones.
- DriverRuns.SettledIsDone: fairness between threads is not modelled; it is stated as a bound on internal actions together with what holds when none is left.
- Negative list indices, which linkedlist.h rules out.
- Additions to a table that has been resized, and a second resize: the last node of a chain would be overwritten.
- GlobPatterns.TranslationKeepsMeaning: patterns with backslashes or other characters that are special in expressions are outside the fragment, and so are brackets that start with '^' or contain '*', '.', '?', a bracket, a backslash or a span out of order; and so is the rule of XCU section 2.13.3 about leading periods, which the code does not implement.
- Numbers.P1Itoa: the least 32-bit integer is excluded, because its negation overflows.
- Words.SplitCommand: words must fit the 100-character buffers, which the code does not check.
