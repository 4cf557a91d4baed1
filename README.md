# Verified model of the algorithms and data structures labs

This project models, in Dafny, the algorithmic core of a set of eleven
coursework labs written in Python. Each lab is a small, sequential algorithm
or data structure, and the model proves that it does what its documentation
and its tests say (or, in six places, shows where it does not). Every lab is
one or more modules, one Dafny file each, and the files are verified
together:

- **lab01** (`search.dfy`, module `Search`): linear search and binary search
  over a list.
- **lab02** (`linked_list.dfy`, `stack_tasks.dfy`): a singly linked list of
  heap-allocated nodes, with `first`/`last` pointers rewired in place and a
  ghost `contents` sequence; the bracket validator, which pushes and pops a
  stack; the palindrome check, which pops both ends of a deque.
- **lab03** (`recursion.dfy`, `recursion_tasks.dfy`, `memoization.dfy`):
  factorial, Fibonacci and fast exponentiation with their Python error cases;
  the recursive binary lookup; the Towers of Hanoi move list and its legality;
  the memoising decorator as a cache object, and the call-counting tracker.
- **lab04** (`ordering.dfy`, `sorts.dfy`, `test_data.dfy`): bubble, selection
  and insertion sort in place on an array, a stable merge sort and a
  three-way quick sort; `is_sorted`; and the test-data generators, with the
  random draws passed in as a function.
- **lab05** (`hash_functions.dfy`, `chaining.dfy`, `probing.dfy`,
  `open_addressing.dfy`, `hash_table_tests.dfy`): the character-sum,
  polynomial, DJB2 and double hashes; the hash table with separate chaining
  and load-factor-triggered doubling; the open-addressing table with linear or
  double probing, the tombstone, and its two expansion paths; and the tables
  defined inside the unit tests.
- **lab06** (`bst.dfy`, `tree_traversal.dfy`, `bst_tests.dfy`): the binary
  search tree (a tree value held by a class whose `root` is reassigned) and
  its traversals, including the iterative in-order walk and the level-order
  queue.
- **lab07** (`heap.dfy`, `heapsort.dfy`, `heap_benchmark.dfy`,
  `priority_queue.dfy`, `heap_diagram.dfy`): the min/max heap, three heap
  sorts, the heap-backed priority queue, and the text rendering of a heap as
  a tree.
- **lab08** (`interval_scheduling.dfy`): greedy interval scheduling and its
  optimality.
- **lab09** (`dynamic_programming.dfy`): bottom-up Fibonacci and the 0/1
  knapsack table with item reconstruction.
- **lab10** (`graph_representation.dfy`, `graph_traversal.dfy`,
  `graph_bfs.dfy`): the adjacency matrix and the adjacency list, BFS with
  distances and parents, shortest paths, and recursive, iterative and
  time-stamped DFS.
- **lab11** (`prefix_function.dfy`, `kmp_search.dfy`): the prefix function,
  the period of a string, Knuth–Morris–Pratt search, the naive search and the
  highlighted output.

`wrappers.dfy` holds the `Option` and `Result` types. `Result` carries the
Python exception a call raises (`ValueError`, `TypeError`, `IndexError`,
`KeyError`, `ZeroDivisionError`, `NameError`), so error paths are modelled as
values and not excluded by preconditions.

Code that mutates state is modelled as methods on classes or arrays, with
`modifies` clauses. Each such method is proved against a specification
function, and the properties the source promises are lemmas about those
functions. Python's negative list indexing is modelled where the code can
reach it: the BFS start vertex, the shortest-path end vertex, and the DFS
time stamps.

## Model

| member | source | states |
|---|---|---|
| Search.LinearSearch | lab01/src/main.py:9-16 | the result is the first index holding the target; None exactly when the target does not occur |
| Search.BinarySearch | lab01/src/main.py:19-33 | a returned index holds the target; on a sorted list None means the target is absent |
| Ordering.AdjacentSorted | lab04/src/sorts.py:164-174 | adjacent pairs in order imply every pair in order (the all-pairs reading of `is_sorted`) |
| LinkedList.Node.constructor | lab02/src/linked_list.py:7-9 | a node holds the value and no successor |
| LinkedList.SinglyLinkedList.constructor | lab02/src/linked_list.py:15-17 | a new list is valid and empty, with no first and no last node |
| LinkedList.SinglyLinkedList.Prepend | lab02/src/linked_list.py:19-27 | the contents become the value followed by the old contents; on an empty list the new node is both first and last |
| LinkedList.SinglyLinkedList.Append | lab02/src/linked_list.py:29-37 | the contents become the old contents followed by the value; the new node is the last one |
| LinkedList.SinglyLinkedList.PopFront | lab02/src/linked_list.py:39-50 | None and no change on an empty list; otherwise the first value is returned and dropped, and both ends are reset when the list empties |
| LinkedList.SinglyLinkedList.ToList | lab02/src/linked_list.py:52-61 | the walk over `next` yields exactly the contents, in order |
| LinkedList.SinglyLinkedList.Empty | lab02/src/linked_list.py:63-65 | true exactly when the contents are empty |
| LinkedList.SinglyLinkedList.Length | lab02/src/linked_list.py:67-76 | the count of nodes walked equals the number of elements |
| LinkedList.Demonstrate | lab02/src/linked_list.py:79-92 | prepend 10, prepend 20, append 5 lists [20, 10, 5] of length 3; pop_front returns 20 and leaves [10, 5] |
| LinkedList.Showcase | lab02/src/task_solutions.py:144-166 | inserting 10, 20 at the start and 30, 40 at the end gives [20, 10, 30, 40] of size 4; deleting from the start returns 20 and leaves [10, 30, 40] |
| StackTasks.Brackets | lab02/src/task_solutions.py:89-95 | keeps only the characters of the three bracket kinds, in order |
| StackTasks.ValidateBracketSequence | lab02/src/task_solutions.py:80-97 | True exactly when the bracket characters of the expression are balanced and properly nested; every other character is ignored |
| StackTasks.RunDecides | lab02/src/task_solutions.py:89-97 | the push/pop stack machine ends with an empty stack exactly on well-nested bracket strings |
| StackTasks.RunIgnoresOthers | lab02/src/task_solutions.py:89-91 | characters that are neither openers nor closers do not change the machine's outcome |
| StackTasks.RunPush | lab02/src/task_solutions.py:90-91 | an opener is pushed on the stack |
| StackTasks.RunPop | lab02/src/task_solutions.py:92-95 | a closer whose opener is on top pops it |
| StackTasks.NestedRunsThrough | lab02/src/task_solutions.py:89-95 | a well-nested string passes through the machine leaving the stack as it found it |
| StackTasks.RunSound | lab02/src/task_solutions.py:92-97 | a bracket string that empties the stack (no early False, no leftover opener) is well nested after the stacked openers |
| StackTasks.InsertPair | lab02/src/task_solutions.py:89-95 | inserting a matched pair anywhere keeps a string well nested |
| StackTasks.RemoveSpaces | lab02/src/task_solutions.py:106 | the result contains no whitespace and is no longer than the input |
| StackTasks.Reverse | lab02/src/task_solutions.py:108-113 | the result has the same length and holds the character mirrored at each position |
| StackTasks.CheckPalindromeSequence | lab02/src/task_solutions.py:100-115 | True exactly when the lower-cased text with whitespace removed equals its reverse |
| StackTasks.MirrorStep | lab02/src/task_solutions.py:109-113 | one round of the deque loop drops both ends; equal ends extend the matched prefix, different ends rule out a palindrome |
| StackTasks.PalindromeIsMirrored | lab02/src/task_solutions.py:109-115 | a string equals its reverse exactly when every character matches its mirror image |
| StackTasks.MirroredMiddle | lab02/src/task_solutions.py:109-115 | once fewer than two characters are left, matching up to the middle is matching everywhere |
| Recursion.ComputeFactorial | lab03/src/recursion.py:22-32 | AssertionError for a non-int argument, ValueError for a negative one, otherwise a positive result |
| Recursion.FactorialIsFact | lab03/src/recursion.py:28-32 | for every n >= 0 the recursion returns n! |
| Recursion.GenerateFibonacciNumber | lab03/src/recursion.py:51-66 | TypeError for a non-int index, ValueError for a negative one, otherwise a non-negative result |
| Recursion.FibonacciIsFib | lab03/src/recursion.py:58-66 | for every n >= 0 the recursion returns F(n) with F(0) = 0, F(1) = 1 |
| Recursion.ExponentiateNumber | lab03/src/recursion.py:86-99 | ValueError exactly for a negative exponent; a non-negative base gives a non-negative power |
| Recursion.PowAdd | lab03/src/recursion.py:95-99 | b^(m+n) = b^m * b^n, the identity behind squaring the half power |
| Recursion.ExponentiateIsPow | lab03/src/recursion.py:90-99 | for every exponent >= 0 the squaring recursion equals base^exponent |
| Recursion.ExpectedValues | lab03/src/recursion.py:104-125 | 0! = 1, 1! = 1, 5! = 120, F(0) = 0, F(1) = 1, F(6) = 8, F(10) = 55, 2^3 = 8, 5^0 = 1, 3^4 = 81, 2^10 = 1024, 5^4 = 625 |
| RecursionTasks.RecursiveBinaryLookup | lab03/src/recursion_tasks.py:25-36 | the result is -1 or an index in [start, end] holding the item; on a sorted list -1 exactly when the item is absent from that range |
| RecursionTasks.Lookup | lab03/src/recursion_tasks.py:22-26 | with the default range the result is -1 or an index holding the item; on a sorted list -1 exactly when the item is absent, so an empty list gives -1 |
| RecursionTasks.LookupExamples | lab03/src/recursion_tasks.py:109-116 | on [1, 3, 5, 7, 9, 11]: 1 at 0, 7 at 3, 11 at 5, and -1 for 4 and 0 |
| RecursionTasks.Render | lab03/src/recursion_tasks.py:62-69 | one description line per move, in move order |
| RecursionTasks.SolveHanoiPuzzle | lab03/src/recursion_tasks.py:60-72 | appends exactly the recursive move list for the given disks and rods to the shared sequence |
| RecursionTasks.GenerateTowerOfHanoiSolution | lab03/src/recursion_tasks.py:39-75 | no moves for a disk count <= 0; otherwise the lines describe exactly the recursive solution's moves |
| RecursionTasks.HanoiShape | lab03/src/recursion_tasks.py:60-72 | 2^n - 1 moves, each naming a disk in 1..n; disk n moves exactly once, from source to destination, between the two halves |
| RecursionTasks.ApplyConcat | lab03/src/recursion_tasks.py:66-72 | playing two move lists in a row is playing their concatenation |
| RecursionTasks.TowerOnTop | lab03/src/recursion_tasks.py:66-72 | a stack with disk n under disks n-1..1 is the tower of n disks |
| RecursionTasks.Restored | lab03/src/recursion_tasks.py:66-72 | after the three phases only the source and destination rods differ from the start |
| RecursionTasks.OneMove | lab03/src/recursion_tasks.py:62-69 | moving the top disk onto an empty rod or a larger disk is legal and changes only those two rods |
| RecursionTasks.HanoiLegal | lab03/src/recursion_tasks.py:60-72 | every generated move puts a disk on an empty rod or a larger disk, and the moves carry the whole tower to the destination |
| RecursionTasks.SolutionIsLegal | lab03/src/recursion_tasks.py:55-75 | from the start position all n disks end on the destination rod and the other rods are empty |
| Memoization.CachedFunction.constructor | lab03/src/memoization.py:10-12 | the decorator wraps the target with an empty result store |
| Memoization.CachedFunction.Call | lab03/src/memoization.py:15-20 | the result is always the target's result for the arguments; a seen argument changes nothing, a new one with a normal result is stored, and a raising call leaves the store unchanged |
| Memoization.FibonacciCache.constructor | lab03/src/memoization.py:25-26 | the decorated Fibonacci starts with an empty store |
| Memoization.FibonacciCache.ComputeFibonacciCached | lab03/src/memoization.py:39-48 | ValueError for a negative position with the store unchanged; otherwise F(position), which is then stored; stored keys are never dropped and new keys lie in [0, position] |
| Memoization.CallsClosedForm | lab03/src/memoization.py:68-78 | the tracked recursion makes 2 F(n+1) - 1 calls |
| Memoization.RecursionTracker.constructor | lab03/src/memoization.py:54-56 | the counter starts at 0 |
| Memoization.RecursionTracker.ComputeFibonacciTracked | lab03/src/memoization.py:58-78 | ValueError for a negative position, F(position) otherwise; the counter rises once per call, recursive calls included |
| Memoization.RecursionTracker.ResetTracker | lab03/src/memoization.py:80-82 | the counter is 0 afterwards |
| Memoization.CompareImplementations | lab03/src/memoization.py:92-119 | after a reset the tracked and cached results are both F(n), and the counter holds 2 F(n+1) - 1 |
| Sorts.BubblePass | lab04/src/sorts.py:27-31 | one pass permutes only the unsorted prefix, leaves the suffix alone and carries the prefix maximum to its last slot; no swap means the prefix was already in order |
| Sorts.PassStep | lab04/src/sorts.py:29-31 | one comparison keeps the running maximum at the moving position and the array a permutation |
| Sorts.PassFrame | lab04/src/sorts.py:29-30 | a comparison inside the prefix changes neither the suffix nor the multiset |
| Sorts.PassMaximum | lab04/src/sorts.py:29-30 | a comparison moves the larger of the pair, and with it the running maximum, one slot right |
| Sorts.BubbleStep | lab04/src/sorts.py:26-31 | after pass i the largest value of the prefix joins the sorted suffix of the i+1 largest values |
| Sorts.AdjacentPrefix | lab04/src/sorts.py:32-33 | a pass with no swap, below a sorted larger suffix, means the whole list is sorted (the early exit is safe) |
| Sorts.BubbleSort | lab04/src/sorts.py:8-34 | the same list is returned, sorted and a permutation of its old contents |
| Sorts.IndexOfMinimum | lab04/src/sorts.py:56-59 | the index found lies in the suffix and holds its minimum |
| Sorts.SelectStep | lab04/src/sorts.py:60 | swapping the suffix minimum into slot i extends the sorted prefix of smallest values by one |
| Sorts.SelectionSort | lab04/src/sorts.py:37-61 | the same list is returned, sorted and a permutation of its old contents |
| Sorts.Inserted | lab04/src/sorts.py:82-87 | moving one element keeps the length |
| Sorts.InsertedPermutes | lab04/src/sorts.py:82-87 | moving one element keeps the multiset |
| Sorts.GapFilled | lab04/src/sorts.py:84-87 | the shifted array with the key written into the gap is the key moved to its new position |
| Sorts.InsertSorted | lab04/src/sorts.py:84-87 | dropping the key above the smaller values and below the larger ones keeps the first i+1 slots sorted |
| Sorts.ShiftLarger | lab04/src/sorts.py:83-86 | the values before i that exceed the key move one slot right, the rest stay, and the gap is just above the last value <= key |
| Sorts.InsertionSort | lab04/src/sorts.py:64-88 | the same list is returned, sorted and a permutation of its old contents |
| Sorts.WithKey | lab04/src/sorts.py:124 | the elements with one key, a sub-list of the input |
| Sorts.WithKeyConcat | lab04/src/sorts.py:131-132 | picking one key distributes over concatenation |
| Sorts.WithKeyAbove | lab04/src/sorts.py:123-129 | a key-sorted list starting above a key holds no element with that key |
| Sorts.MergedSorted | lab04/src/sorts.py:118-133 | merging two sorted lists gives a sorted permutation of both, headed by one of their heads |
| Sorts.HeadBelow | lab04/src/sorts.py:124-129 | an element no larger than the head of a sorted list can go in front of it |
| Sorts.MergedStable | lab04/src/sorts.py:124 | because of `<=`, among equal keys the left elements come first, each side in its own order |
| Sorts.Merge | lab04/src/sorts.py:118-133 | the loop returns exactly the stable merge of the two lists |
| Sorts.AppendHead | lab04/src/sorts.py:125-128 | appending the head of a remainder keeps output + remainder unchanged |
| Sorts.MergeStep | lab04/src/sorts.py:123-129 | one round takes the smaller head, the left one on a tie |
| Sorts.MergeRest | lab04/src/sorts.py:131-132 | once a side is used up, the rest of the merge is the two remainders in order |
| Sorts.MergeSort | lab04/src/sorts.py:91-115 | a new list, sorted and a permutation of the input, with equal keys in their input order (stable) |
| Sorts.MergeHalves | lab04/src/sorts.py:111-115 | merging stable sorted images of the two halves sorts the whole list stably |
| Sorts.Below | lab04/src/sorts.py:157 | exactly the elements below the pivot, with their multiplicities |
| Sorts.Equal | lab04/src/sorts.py:158 | exactly the copies of the pivot |
| Sorts.Above | lab04/src/sorts.py:159 | exactly the elements above the pivot, with their multiplicities |
| Sorts.Partition | lab04/src/sorts.py:157-159 | the three parts together are the list again, as a multiset |
| Sorts.QuickSort | lab04/src/sorts.py:136-161 | the result is sorted and a permutation of the input |
| Sorts.PartsShorter | lab04/src/sorts.py:156-159 | both outer parts miss the pivot, so the recursion shrinks |
| Sorts.QuickJoin | lab04/src/sorts.py:161 | the sorted outer parts around the pivot copies form a sorted permutation |
| Sorts.JoinSorted | lab04/src/sorts.py:161 | sorted values below the pivot, its copies and sorted values above it join into a sorted list |
| Sorts.IsSorted | lab04/src/sorts.py:164-174 | True exactly when every pair of positions is in order; empty and one-element lists are sorted |
| Sorts.IsSortedScan | lab04/src/perfomance_test.py:113-118 | the loop that returns False at the first descent is True exactly when the list is sorted |
| TestData.CreateAscendingIntegerSequence | lab04/src/generate_data.py:18-21 | max(n, 0) elements with the value i at position i |
| TestData.CreateDescendingIntegerSequence | lab04/src/generate_data.py:24-28 | max(n, 0) elements with the value n - i at position i |
| TestData.AscendingDescending | lab04/src/generate_data.py:18-28 | the ascending data is strictly increasing, the descending data is its mirror image shifted by one, and for n >= 2 it is not sorted |
| TestData.CreateRandomIntegerSequence | lab04/src/generate_data.py:9-15 | ValueError exactly when n > 0 and the upper bound is negative; otherwise max(n, 0) draws, each in [0, n * max_multiplier] |
| TestData.SwapsRequired | lab04/src/generate_data.py:47-50 | at least one swap; an explicit count wins as max(1, count); otherwise max(1, n * percentage / 100) truncated |
| TestData.AlmostSortedSwaps | lab04/src/plot_results.py:123 | at least one swap; otherwise the floor of size * percent / 100 |
| TestData.SwapRandomPairs | lab04/src/generate_data.py:52-57 | ValueError exactly when there is no position to draw from and a swap is due; otherwise a permutation of range(n) |
| TestData.CreateNearlySortedSequence | lab04/src/generate_data.py:31-59 | ValueError exactly for n <= 0 (a swap always happens); otherwise n elements forming a permutation of range(n) |
| TestData.GenerateAlmostSortedArray | lab04/src/plot_results.py:121-131 | ValueError exactly for size <= 0; otherwise a permutation of range(size) |
| TestData.Generate | lab04/src/generate_data.py:83-99 | the generator picked by name: sorted and reversed give the exact sequences, almost_sorted a permutation of range(n), each of length max(n, 0) |
| TestData.GenerateAllSizes | lab04/src/generate_data.py:95-99 | one entry per requested size, each of that length; an error exactly when an almost-sorted size is <= 0 |
| TestData.ConstructDataCollection | lab04/src/generate_data.py:62-101 | with the default sizes and kinds, the result holds exactly the requested kinds that have generators, each mapping every requested size to data of that length |
| TestData.IntactWhenSizesNatural | lab04/src/generate_data.py:134-141 | a correctly built collection passes the integrity check exactly when it is empty or no size is negative |
| TestData.SizesMatch | lab04/src/generate_data.py:135-137 | True exactly when every sequence's length equals its size key |
| TestData.VerifyDataCollectionIntegrity | lab04/src/generate_data.py:122-141 | True exactly when every sequence in every kind has the length of its size key |
| TestData.StoreEffect | lab04/src/plot_results.py:406-413 | storing a record adds its triple with its time and keeps every other triple as it was |
| TestData.ConvertToNestedFormat | lab04/src/plot_results.py:397-415 | a triple is present exactly when some record has it, and it holds the time of the last such record |
| TestData.StoreResult | lab04/src/plot_results.py:401-413 | one loop round creates missing inner maps and stores the time |
| TestData.RecordsStep | lab04/src/plot_results.py:401-413 | after k+1 records the stored triples are exactly those of the first k+1 records |
| TestData.LastTimesStep | lab04/src/plot_results.py:401-413 | after k+1 records each stored triple holds the time of its last record so far |
| HashFunctions.PyMod | lab05/src/hash_table_open_addressing.py:45 | Python's `%`: in [0, m) for a positive modulus and in (m, 0] for a negative one |
| HashFunctions.Mod | lab05/src/hash_functions.py:23 | ZeroDivisionError exactly for a zero modulus; otherwise, for a positive modulus, a value in [0, m) |
| HashFunctions.AddMultiple | lab05/src/hash_functions.py:100-101 | adding a multiple of the capacity does not change the slot |
| HashFunctions.SmallMod | lab05/src/hash_functions.py:100-101 | a value already in [0, m) is its own remainder |
| HashFunctions.ModAtMost | lab05/src/hash_functions.py:23 | the remainder of a natural number never exceeds it |
| HashFunctions.ModMulAdd | lab05/src/hash_functions.py:45 | reducing the accumulator before the next Horner step does not change the result mod the capacity |
| HashFunctions.CharacterSumHash | lab05/src/hash_functions.py:6-24 | ZeroDivisionError exactly for capacity 0; for a positive capacity the code-point sum mod the capacity, in [0, capacity) |
| HashFunctions.CalculateCharacterSumHash | lab05/src/hash_functions.py:17-24 | the accumulator loop computes the character-sum hash |
| HashFunctions.PolynomialHash | lab05/src/hash_functions.py:27-47 | the empty string gives 0 for every capacity; ZeroDivisionError exactly for a non-empty string at capacity 0; otherwise a value in [0, capacity) |
| HashFunctions.HornerIsPolyMod | lab05/src/hash_functions.py:43-45 | reducing at every step equals the whole polynomial reduced once |
| HashFunctions.PolynomialHashClosedForm | lab05/src/hash_functions.py:41-47 | the hash is the sum of ord(c_i) * base^(n-1-i), reduced by the capacity |
| HashFunctions.ComputePolynomialBasedHash | lab05/src/hash_functions.py:41-47 | the accumulator loop computes the polynomial hash |
| HashFunctions.Djb2Masking | lab05/src/hash_functions.py:65-69 | masking to 32 bits after every step equals masking once at the end |
| HashFunctions.Djb2ClosedForm | lab05/src/performance_hash.py:30-35 | the unmasked state is 5381 * 33^n + the sum of ord(c_i) * 33^(n-1-i) |
| HashFunctions.Djb2Hash | lab05/src/hash_functions.py:50-72 | ZeroDivisionError exactly for capacity 0; otherwise the 32-bit masked state mod the capacity; the empty string gives 5381 mod capacity |
| HashFunctions.Djb2UnmaskedHash | lab05/src/performance_hash.py:30-35 | ZeroDivisionError exactly for capacity 0; otherwise (5381 * 33^n + the code-point polynomial in 33) mod the capacity, never masked |
| HashFunctions.GenerateDjb2HashCode | lab05/src/hash_functions.py:62-72 | the loop with `<< 5` and the mask computes the masked DJB2 hash |
| HashFunctions.ComputeDjb2Hash | lab05/src/performance_hash.py:30-35 | the loop without a mask computes the unmasked DJB2 hash |
| HashFunctions.SecondaryStep | lab05/src/hash_functions.py:95-98 | ZeroDivisionError exactly at capacity 2; at capacity 1 the step is 1; from capacity 3 on it lies in [1, capacity - 2] |
| HashFunctions.DoubleHash | lab05/src/hash_functions.py:75-103 | ZeroDivisionError exactly at capacities 0 and 2; otherwise a slot in [0, capacity); iteration 0 is the polynomial hash |
| HashFunctions.DoubleHashSteps | lab05/src/hash_functions.py:100-101 | the double hash is the polynomial hash advanced by `iteration` whole steps, mod the capacity |
| HashFunctions.SecondaryStepCanBeEven | lab05/src/hash_functions.py:94-98 | the step is not always odd: "a" at capacity 10 steps by 2 |
| HashFunctions.OddSecondaryStep | lab05/src/hash_functions.py:94 | the step the comment describes is odd and still in [1, capacity - 2] |
| HashFunctions.OddSecondaryStepSample | lab05/src/hash_functions.py:94-98 | with the odd step, "a" at capacity 10 steps by 3 |
| Chaining.PolynomialIndex | lab05/src/hash_table_chaining.py:29-36 | the default inline hash lies in [0, capacity) and equals the polynomial hash with base 31 |
| Chaining.KeyIndex | lab05/src/hash_table_chaining.py:81-82 | the first position holding the key, or the chain length when none does |
| Chaining.KeyIndexAtMost | lab05/src/hash_table_chaining.py:81-82 | any position holding the key bounds the first one |
| Chaining.Locate | lab05/src/hash_table_chaining.py:81-84 | the `enumerate` scan stops at the first pair with the key |
| Chaining.FlattenPrefix | lab05/src/hash_table_chaining.py:160-165 | a prefix of the buckets holds no more pairs than all of them |
| Chaining.FlattenStep | lab05/src/hash_table_chaining.py:163-164 | the next bucket adds its own pairs to the flattening |
| Chaining.FlattenOrigin | lab05/src/hash_table_chaining.py:160-165 | every entry of the flattening comes from some chain |
| Chaining.FlattenPosition | lab05/src/hash_table_chaining.py:160-165 | every pair of every chain occurs in the flattening |
| Chaining.Lookup | lab05/src/hash_table_chaining.py:101-108 | scanning a key's bucket finds it exactly when the key is stored, and then with its value |
| Chaining.SoundElsewhere | lab05/src/hash_table_chaining.py:77-88 | a chain in another bucket never holds the key, so updating the key leaves it sound |
| Chaining.DistinctCard | lab05/src/hash_table_chaining.py:167-169 | pairs without a repeated key have as many keys as pairs |
| Chaining.FlattenDistinct | lab05/src/hash_table_chaining.py:160-165 | chains placed by bucket and without repeats flatten to pairs without repeated keys |
| Chaining.FlattenKeys | lab05/src/hash_table_chaining.py:160-165 | the keys among all the pairs are exactly the keys of the map |
| Chaining.PairCount | lab05/src/hash_table_chaining.py:167-169 | there are as many pairs in the chains as keys in the map |
| Chaining.PutChainFacts | lab05/src/hash_table_chaining.py:81-88 | putting a pair into its own chain keeps it placed and without repeats; the key is then found with the new value and every other key as before |
| Chaining.DeleteChainFacts | lab05/src/hash_table_chaining.py:120-126 | deleting a key from its chain keeps it placed and without repeats; the key is gone and every other key still found |
| Chaining.PutConsistent | lab05/src/hash_table_chaining.py:77-88 | overwriting or appending in the key's bucket represents the map updated at the key |
| Chaining.DeleteConsistent | lab05/src/hash_table_chaining.py:117-126 | deleting from the key's bucket represents the map without the key |
| Chaining.CreateEmptyStorage | lab05/src/hash_table_chaining.py:44-47 | `size` empty chains |
| Chaining.EmptyConsistent | lab05/src/hash_table_chaining.py:41-42 | empty chains represent the empty map |
| Chaining.CollisionsCount | lab05/src/hash_table_chaining.py:143-158 | the collision total is the number of pairs minus the number of non-empty chains, so 0 for an empty table |
| Chaining.CoversExtend | lab05/src/hash_table_chaining.py:60-63 | the buckets already re-added stay present as the map grows |
| Chaining.ReinsertStep | lab05/src/hash_table_chaining.py:61-63 | re-adding the next old pair keeps the map within the old one and covers one more pair |
| Chaining.AllReinserted | lab05/src/hash_table_chaining.py:53-63 | re-adding every old pair rebuilds exactly the old map |
| Chaining.HashTableWithChaining.Bucket | lab05/src/hash_table_chaining.py:49-51 | the hash of a key is a valid bucket |
| Chaining.HashTableWithChaining.CurrentLoadFactor | lab05/src/hash_table_chaining.py:132-134 | the number of keys per bucket |
| Chaining.HashTableWithChaining.constructor | lab05/src/hash_table_chaining.py:18-42 | `initial_capacity` empty chains and no pairs; without a hashing algorithm the inline base-31 polynomial hash is used |
| Chaining.HashTableWithChaining.AddEntry | lab05/src/hash_table_chaining.py:65-88 | the map becomes the old one with the key set to the value; the count rises only for a new key; above the load factor the capacity at least doubles first, otherwise the pair is put in place in its bucket |
| Chaining.HashTableWithChaining.PerformResizeOperation | lab05/src/hash_table_chaining.py:53-63 | after the rebuild the capacity is at least the new one and the map and count are unchanged |
| Chaining.HashTableWithChaining.ReinsertBucket | lab05/src/hash_table_chaining.py:60-63 | one old bucket's pairs are re-added and the buckets up to it are covered |
| Chaining.HashTableWithChaining.ReinsertChain | lab05/src/hash_table_chaining.py:61-63 | every pair of one old chain is present afterwards with its value |
| Chaining.HashTableWithChaining.RetrieveValue | lab05/src/hash_table_chaining.py:90-108 | the stored value of the key, or None when it is absent |
| Chaining.HashTableWithChaining.RemoveEntry | lab05/src/hash_table_chaining.py:110-126 | True exactly when the key was stored; the key is gone, the count drops by one only then, and the other pairs keep their order |
| Chaining.HashTableWithChaining.ContainsKey | lab05/src/hash_table_chaining.py:128-130 | True exactly when the key is stored with a value other than None |
| Chaining.HashTableWithChaining.GetItem | lab05/src/hash_table_chaining.py:175-180 | the stored value, or KeyError for an absent key and for one stored with None |
| Chaining.HashTableWithChaining.AnalyzeCollisionStatistics | lab05/src/hash_table_chaining.py:136-158 | the total is the pair count minus the non-empty chains (0 for an empty table), and the average is over the non-empty chains or 0.0 |
| Chaining.HashTableWithChaining.GetAllEntries | lab05/src/hash_table_chaining.py:160-165 | the chains concatenated in bucket order: one entry per stored key, each with its value |
| Chaining.EntriesCoverContents | lab05/src/hash_table_chaining.py:160-165 | every stored key appears among the entries |
| Chaining.DemonstrationContents | lab05/src/hash_table_chaining.py:194-204 | the demonstration pairs leave four keys, "apple" with its updated value |
| Chaining.AddDemonstrationData | lab05/src/hash_table_chaining.py:188-204 | adding at most seven pairs to eight buckets at load factor 0.75 never resizes and builds the map of the pairs |
| Chaining.DemonstrateHashTableOperations | lab05/src/hash_table_chaining.py:187-234 | the printed outcomes: load 0.5 after the five additions (four keys in eight buckets), "apple" retrieved with its updated value, "banana" found and "kiwi" absent, the removal of "grape" succeeding, "apple" still in the table, and three entries left, none of them "grape" |
| Chaining.QueryDemonstrationTable | lab05/src/hash_table_chaining.py:207-234 | on the table the additions leave (four keys in eight buckets): load 0.5, the updated "apple", "banana" found, "kiwi" absent, the removal of "grape" succeeding, "apple" still present, `len` 3 and three listed entries, none of them "grape" |
| Probing.Probe | lab05/src/hash_table_open_addressing.py:41-45 | a probe that does not raise lands in [0, capacity): linear moves one slot per attempt, double moves by the secondary step |
| Probing.ProbeErrors | lab05/src/hash_table_open_addressing.py:41-45 | the probe raises exactly for configurations that do not work: ValueError for an unknown strategy, NameError for double hashing with a custom primary hash, ZeroDivisionError for double hashing at capacity 2 |
| Probing.SoundDoubles | lab05/src/hash_table_open_addressing.py:109-122 | doubling the capacity keeps a working configuration working |
| Probing.DoubleFromOneFails | lab05/src/hash_table_open_addressing.py:44 | a double-hashing table of capacity 1 probes fine but raises ZeroDivisionError once doubled to 2 |
| Probing.Index | lab05/src/hash_table_open_addressing.py:56-71 | the slot an attempt lands on lies in [0, capacity) |
| Probing.Step | lab05/src/hash_table_open_addressing.py:44-65 | one attempt moves 1 slot (linear) or the secondary step (double), at least 1 |
| Probing.IndexSteps | lab05/src/hash_table_open_addressing.py:45-65 | every attempt is the primary hash advanced by whole steps, mod the capacity |
| Probing.DoubleProbeIsDoubleHash | lab05/src/hash_table_open_addressing.py:41-45 | with the polynomial hash as primary, the table's double probe is `calculate_double_hash_value` of the hash-function module |
| Probing.EarlyAttemptsDistinct | lab05/src/hash_table_open_addressing.py:87-88 | attempts whose whole steps stay below the capacity land on different slots |
| Probing.InsertAttempt | lab05/src/hash_table_open_addressing.py:87-106 | the attempt where `_insert_entry` stops: the first whose slot is empty, a tombstone or holds the key; the capacity when every attempt meets a foreign key |
| Probing.FindAttempt | lab05/src/hash_table_open_addressing.py:133-145 | the attempt where `find_element` finds the key: the walk ends with nothing at the first empty slot or after the last attempt and skips tombstones |
| Probing.HoldingAttempt | lab05/src/hash_table_open_addressing.py:188-196 | the first attempt whose slot holds the key, passing empty slots too; the capacity when none does |
| Probing.EmptyAttempt | lab05/src/hash_table_open_addressing.py:137-139 | the first attempt whose slot is empty; the capacity when none is |
| Probing.VisitsMonotone | lab05/src/hash_table_open_addressing.py:133-145 | filling slots never shortens a key's walk |
| Probing.InsertVisits | lab05/src/hash_table_open_addressing.py:87-106 | the walk of the key meets the slot where insertion stops |
| Probing.InsertIndex | lab05/src/hash_table_open_addressing.py:101 | the slot `_insert_entry` writes lies in the table |
| Probing.InsertReach | lab05/src/hash_table_open_addressing.py:101 | writing the key where insertion stops keeps every stored pair reachable by its walk |
| Probing.RemoveReach | lab05/src/hash_table_open_addressing.py:163 | a tombstone in place of a pair keeps every other pair reachable |
| Probing.EmptyTable | lab05/src/hash_table_open_addressing.py:52 | an all-empty table stores nothing and finds nothing |
| Probing.FindWritten | lab05/src/hash_table_open_addressing.py:101 | after the write the key's walk stops at the written slot, so the key finds its new value |
| Probing.FindSame | lab05/src/hash_table_open_addressing.py:133-145 | tables that agree on emptiness and on the key send its walk to the same answer |
| Probing.NotPastEmpty | lab05/src/hash_table_open_addressing.py:137-139 | a reachable pair cannot sit past an empty slot of its key's walk |
| Probing.NoneBeyond | lab05/src/hash_table_open_addressing.py:137-139 | past an empty slot of its walk a key is found nowhere, even once that slot is filled with another key |
| Probing.FindFilled | lab05/src/hash_table_open_addressing.py:101 | filling an empty slot with another key leaves every walk's answer unchanged |
| Probing.LookupOther | lab05/src/hash_table_open_addressing.py:87-106 | an insertion changes no other key's answer |
| Probing.InsertLookups | lab05/src/hash_table_open_addressing.py:85-106 | without exhaustion the key answers its new value, every other key as before, and every pair stays reachable |
| Probing.RemoveLookups | lab05/src/hash_table_open_addressing.py:147-167 | the tombstone leaves other keys' answers unchanged; the key answers whatever its walk finds beyond the tombstone |
| Probing.FindPassed | lab05/src/hash_table_open_addressing.py:141-163 | up to the removed attempt the key's walk met only slots that still let it pass |
| Probing.FindAbsent | lab05/src/hash_table_open_addressing.py:133-145 | a key held by no slot is not found |
| Probing.RemoveDistinct | lab05/src/hash_table_open_addressing.py:147-167 | without duplicates a removed key is not found afterwards |
| Probing.Entries | lab05/src/hash_table_open_addressing.py:80-83 | the stored pairs in slot order, at most one per slot |
| Probing.EntriesStep | lab05/src/hash_table_open_addressing.py:80-83 | one more slot adds its pair, if it holds one, at the end |
| Probing.EntriesPrefix | lab05/src/hash_table_open_addressing.py:80-83 | a prefix of the slots holds no more pairs than all of them |
| Probing.Positions | lab05/src/hash_table_open_addressing.py:183-184 | the occupied positions, as many as pairs |
| Probing.EntriesUpdate | lab05/src/hash_table_open_addressing.py:101-104 | overwriting one slot changes the pair count by what it held and what it now holds |
| Probing.LandedFresh | lab05/src/hash_table_open_addressing.py:87-88 | an early attempt lands outside the slots of the attempts before it |
| Probing.LandedCount | lab05/src/hash_table_open_addressing.py:87-88 | early attempts land on as many slots as there are attempts |
| Probing.LandedOccupied | lab05/src/hash_table_open_addressing.py:87-94 | when the first attempts all meet pairs, their slots are among the occupied positions |
| Probing.CoveringAttempts | lab05/src/hash_table_open_addressing.py:87-88 | some number of attempts with whole steps below the capacity reaches it |
| Probing.ExhaustedBound | lab05/src/hash_table_open_addressing.py:108-110 | exhaustion happens only when the capacity is at most the pair count times the step, so a linear table that exhausts is full |
| Probing.LastValueMeaning | lab05/src/hash_table_open_addressing.py:80-83 | re-inserting pairs in slot order leaves nothing for a key exactly when no pair has it, and otherwise one of its pairs |
| Probing.LastValueAppend | lab05/src/hash_table_open_addressing.py:82-83 | one more re-inserted pair answers for its own key and leaves the others alone |
| Probing.LastValueOther | lab05/src/hash_table_open_addressing.py:82-83 | a pair for another key leaves the answer for this key alone |
| Probing.EntriesHold | lab05/src/hash_table_open_addressing.py:80-83 | the single slot holding a key supplies its last pair |
| Probing.EntriesLack | lab05/src/hash_table_open_addressing.py:80-83 | no slot holds the key: no pair has it |
| Probing.FindVisited | lab05/src/hash_table_open_addressing.py:133-143 | a walk that meets the only slot holding the key finds that slot |
| Probing.LookupIsLast | lab05/src/hash_table_open_addressing.py:73-83 | with every pair reachable and no duplicates, each key answers the value of its last pair in slot order, the value re-insertion keeps |
| Probing.EmptySlots | lab05/src/hash_table_open_addressing.py:52-77 | fresh storage of n empty slots |
| Probing.EmptySlotsFacts | lab05/src/hash_table_open_addressing.py:52-77 | fresh storage has no tombstones, no pairs, and finds nothing |
| Probing.WalkMeetsHolder | lab05/src/hash_table_open_addressing.py:87-94 | without tombstones the walk of a stored key stops at the slot holding it |
| Probing.InsertClean | lab05/src/hash_table_open_addressing.py:80-83 | inserting into a table without tombstones or duplicates keeps it so (expansion cannot duplicate) |
| Probing.InsertAt | lab05/src/hash_table_open_addressing.py:87-106 | the write at the stopping attempt: the pair answers for the key, other keys as before, and the count grows exactly when the slot was free |
| Probing.FoundIfHeld | lab05/src/hash_table_open_addressing.py:133-145 | with every pair reachable, a held key is found |
| Probing.CorrectedIndex | lab05/src/hash_table_open_addressing.py:87-106 | the slot an insertion should write lies in the table: the key's own slot when its walk finds it, else the first free one |
| Probing.CorrectedInsert | lab05/src/hash_table_open_addressing.py:87-106 | the corrected write never duplicates a key, keeps pairs reachable, answers the new value for the key and the old answers for the others |
| OpenAddressing.Cost | lab05/src/hash_table_open_addressing.py:186-198 | the probes counted for one stored key lie between one and the capacity |
| OpenAddressing.ProbeSumBounds | lab05/src/hash_table_open_addressing.py:180-199 | the probe total over the stored pairs lies between their number and their number times the capacity |
| OpenAddressing.FirstAttemptCost | lab05/src/hash_table_open_addressing.py:188-196 | a key sitting at its first probe position costs exactly one probe |
| OpenAddressing.BudgetDrops | lab05/src/hash_table_open_addressing.py:108-110 | an exhausted walk followed by doubling strictly lowers the measure that bounds how often insertion can start over, so the restart terminates |
| OpenAddressing.BudgetShrinks | lab05/src/hash_table_open_addressing.py:120-124 | an expansion before an insertion never raises that measure |
| OpenAddressing.Doubling | lab05/src/hash_table_open_addressing.py:109-122 | a working probe configuration keeps working at twice the capacity |
| OpenAddressing.OpenAddressingHashTable.ComputeCurrentLoad | lab05/src/hash_table_open_addressing.py:169-171 | the load is the number of stored pairs over the capacity, a fraction in [0, 1] |
| OpenAddressing.OpenAddressingHashTable.constructor | lab05/src/hash_table_open_addressing.py:18-54 | a table of the given capacity with only empty slots, no key found, counter zero, the given maximum load, strategy and primary hash (the polynomial one by default; double hashing available only then) |
| OpenAddressing.OpenAddressingHashTable.Copy | lab05/src/performance_hash.py:116-127 | the performance copies' table: empty slots of the given size, no key found, the given load factor and strategy, double hashing always available, and the load checked on every insertion |
| OpenAddressing.OpenAddressingHashTable.Insert | lab05/src/performance_hash.py:129-146 | after insertion the key answers the new value and every other key of a duplicate-free table answers as before; without expansion exactly the first empty, tombstone or same-key slot of the walk changes and the counter grows unless the key was there; otherwise the table at least doubled and every other key answers the last value stored for it |
| OpenAddressing.OpenAddressingHashTable.InsertEntry | lab05/src/hash_table_open_addressing.py:85-110 | the same promise for `_insert_entry`: the first usable slot of the walk receives the pair, and a walk meeting only other keys doubles the table and starts over |
| OpenAddressing.OpenAddressingHashTable.Expand | lab05/src/hash_table_open_addressing.py:73-83 | after rebuilding at the new capacity the table holds no tombstone, no duplicate key, no more pairs than before, and every key answers the last value among the old pairs |
| OpenAddressing.OpenAddressingHashTable.AddElement | lab05/src/hash_table_open_addressing.py:112-124 | `add_element`: the same promise as insertion, with the table doubled first when the load exceeds the maximum |
| OpenAddressing.OpenAddressingHashTable.FindElement | lab05/src/hash_table_open_addressing.py:126-145 | the result is the value in the first slot of the walk holding the key, or nothing when the walk meets an empty slot or runs out |
| OpenAddressing.OpenAddressingHashTable.RemoveElement | lab05/src/hash_table_open_addressing.py:147-167 | the result says whether the key was found; if so exactly its found slot becomes a tombstone and the counter drops by one, otherwise nothing changes; every other key answers as before, and in a duplicate-free table the key is gone |
| OpenAddressing.OpenAddressingHashTable.ContainsKey | lab05/src/hash_table_open_addressing.py:208-218 | true exactly when the key is found with a value other than None |
| OpenAddressing.OpenAddressingHashTable.GetItem | lab05/src/hash_table_open_addressing.py:220-225 | the found value when it is not None, a KeyError otherwise |
| OpenAddressing.OpenAddressingHashTable.AnalyzeProbingStatistics | lab05/src/hash_table_open_addressing.py:173-206 | the total is the sum over stored pairs of the probes up to the slot holding the key, bounded by the pair count and pair count times capacity; the average is total over pairs, or 0.0 with no pairs |
| OpenAddressing.AddDemonstrationItems | lab05/src/hash_table_open_addressing.py:252-254 | after adding the demonstration pairs to an empty table every key answers the last value added for it |
| OpenAddressing.DemonstrationAnswers | lab05/src/hash_table_open_addressing.py:242-262 | the demonstration finds "red apple" for apple, "yellow" for banana and nothing for watermelon |
| OpenAddressing.CollidingIndex | lab05/src/hash_table_open_addressing.py:56-71 | with a constant primary hash two keys walk the same linear probe sequence |
| OpenAddressing.TombstoneSteps | lab05/src/hash_table_open_addressing.py:87-106 | insert a, insert b, remove a, insert b again: the second insertion of b takes a's tombstone at attempt 0 instead of updating b at attempt 1 |
| OpenAddressing.TombstoneDuplicates | lab05/src/hash_table_open_addressing.py:87-106 | after that sequence b is stored twice and the counter counts two pairs |
| OpenAddressing.TombstoneRemovalUncovers | lab05/src/hash_table_open_addressing.py:154-165 | removing b then brings back its stale value 2 |
| OpenAddressing.TombstoneExpansionRevives | lab05/src/hash_table_open_addressing.py:80-83 | an expansion of that table keeps b's stale value 2, the later slot in slot order |
| OpenAddressing.DemonstrateOpenAddressingTable | lab05/src/hash_table_open_addressing.py:232-284 | the printed lookups and removal: after the seven additions to the linear-probing table "apple" finds its updated value "red apple", "banana" finds "yellow", "watermelon" is not found, and removing "grape" succeeds |
| HashTableTests.CharSumIndex | lab05/src/test_hash_tables.py:15-17 | for a positive capacity the character-sum index lies in [0, capacity) and equals the character-sum hash of the lab |
| HashTableTests.CharSumInRange | lab05/src/test_hash_tables.py:83-102 | the local tables' index maps every key into every positive capacity |
| HashTableTests.ExperimentalKeySum | lab05/src/test_hash_tables.py:38 | the code-point sum of "experimental_key" is 1718 |
| HashTableTests.DifferentKeySum | lab05/src/test_hash_tables.py:42 | the code-point sum of "different_key" is 1375 |
| HashTableTests.HelloWorldHorner | lab05/src/test_hash_tables.py:20-25 | the base-31 hash reduced by 100 is 22 for "hello" and 2 for "world" |
| HashTableTests.VerificationKeyDjb2 | lab05/src/test_hash_tables.py:28-33 | the unmasked DJB2 of "verification_key" modulo 100 is 8 |
| HashTableTests.AlternativeKeyDjb2 | lab05/src/test_hash_tables.py:28-33 | the unmasked DJB2 of "alternative_key" modulo 100 is 84 |
| HashTableTests.HashFunctionTests | lab05/src/test_hash_tables.py:35-68 | each hash test's two keys get different values at capacity 100 (18 and 75, 22 and 2, 8 and 84), so every assertNotEqual holds |
| HashTableTests.LocalHashTable.constructor | lab05/src/test_hash_tables.py:77-80 | a table of the given capacity with empty chains maps no key |
| HashTableTests.LocalHashTable.AddElement | lab05/src/test_hash_tables.py:82-92 | the mapping gains or replaces the key's value, the counter grows only for a new key, and only the key's chain changes, by the chain update of the lab's table |
| HashTableTests.LocalHashTable.FindElement | lab05/src/test_hash_tables.py:94-99 | the stored value, None for an absent key |
| HashTableTests.LocalHashTable.RemoveElement | lab05/src/test_hash_tables.py:101-110 | true exactly when the key was mapped; the key leaves the mapping, the counter drops only then, and only its chain changes |
| HashTableTests.AdditionAndRetrievalTest | lab05/src/test_hash_tables.py:118-129 | both stored values come back and the unknown key gives None |
| HashTableTests.ValueUpdateTest | lab05/src/test_hash_tables.py:131-137 | re-adding a key replaces its value |
| HashTableTests.ElementRemovalTest | lab05/src/test_hash_tables.py:139-149 | the first removal succeeds, the key is then absent, and the second removal fails |
| HashTableTests.CollisionHandlingTest | lab05/src/test_hash_tables.py:151-165 | alpha, beta and gamma come back as 1, 2 and 3 |
| HashTableTests.LinearProber | lab05/src/test_hash_tables.py:179-180 | the linear walk of the test table |
| HashTableTests.LinearProbingTable.constructor | lab05/src/test_hash_tables.py:174-177 | the given number of empty slots |
| HashTableTests.LinearProbingTable.AddElement | lab05/src/test_hash_tables.py:182-189 | the first empty, tombstone or same-key slot of the walk receives the pair, after which the key answers the value and others answer as before; when no slot qualifies nothing changes, which happens only when every slot holds a pair; capacity 0 changes nothing |
| HashTableTests.LinearProbingTable.FindElement | lab05/src/test_hash_tables.py:191-200 | the value at the first slot of the walk holding the key, None at an empty slot, after the last attempt or at capacity 0 |
| HashTableTests.LinearProbingTest | lab05/src/test_hash_tables.py:204-213 | after alpha, beta and gamma in five slots, alpha comes back as 1 |
| HashTableTests.DeletionTest | lab05/src/test_hash_tables.py:252-261 | after alpha and beta, alpha comes back as 1 |
| HashTableTests.DoubleProber | lab05/src/test_hash_tables.py:222-231 | the double-hashing walk of the test table |
| HashTableTests.HoldingFill | lab05/src/test_hash_tables.py:228-243 | writing the key into the first empty slot of its walk makes the walk meet the key at the earlier of its old holder and that slot |
| HashTableTests.HoldingFillOther | lab05/src/test_hash_tables.py:228-243 | filling an empty slot with one key moves no other key's first holder |
| HashTableTests.FillHeld | lab05/src/test_hash_tables.py:228-243 | after an insertion the key answers the new value unless an earlier slot of its walk already held it, and every other key answers as before |
| HashTableTests.DoubleHashingTable.constructor | lab05/src/test_hash_tables.py:218-220 | the given number of empty slots |
| HashTableTests.DoubleHashingTable.AddElement | lab05/src/test_hash_tables.py:228-234 | capacity 2 raises ZeroDivisionError and changes nothing; otherwise exactly the first empty slot of the walk receives the pair, or nothing changes when there is none |
| HashTableTests.DoubleHashingTable.FindElement | lab05/src/test_hash_tables.py:236-243 | capacity 2 raises ZeroDivisionError, capacity 0 gives None, otherwise the value at the first slot of the walk holding the key, empty slots not ending the search |
| HashTableTests.DoubleHashingTest | lab05/src/test_hash_tables.py:215-250 | after alpha and beta in five slots, beta comes back as 2 |
| HashTableTests.ScalableTable.constructor | lab05/src/test_hash_tables.py:270-274 | the given capacity and threshold, that many empty buckets, counter zero |
| HashTableTests.ScalableTable.AddElement | lab05/src/test_hash_tables.py:276-282 | the capacity doubles exactly when the count over the capacity exceeds the threshold, the buckets keep their number; a bucket index past them raises IndexError with nothing appended; otherwise the pair is appended to its bucket without looking for the key and counted |
| HashTableTests.ScalableTable.ExpandCapacity | lab05/src/test_hash_tables.py:284-287 | the capacity doubles and the buckets and counter stay as they are |
| HashTableTests.ExpansionTriggerSum | lab05/src/test_hash_tables.py:296 | the code-point sum of "expansion_trigger" is 1832 |
| HashTableTests.CapacityExpansionTest | lab05/src/test_hash_tables.py:267-298 | three keys fit five buckets, the fourth finds the load 3/5 above 0.5 and doubles the capacity to 10, and all four additions succeed |
| HashTableTests.KeyFiveSum | lab05/src/test_hash_tables.py:280-293 | the code-point sum of "key_5" is 477 |
| HashTableTests.MissingBucketFails | lab05/src/test_hash_tables.py:280-287 | a fifth key whose index after the doubling lies past the five buckets raises IndexError |
| BinarySearchTrees.InorderLength | lab06/src/binary_search_tree.py:182-207 | the in-order list has one entry per node, so `size` and `to_list_inorder` agree in length |
| BinarySearchTrees.InorderElements | lab06/src/binary_search_tree.py:196-207 | the in-order list holds exactly the values of the tree |
| BinarySearchTrees.BstIffInorderSorted | lab06/src/binary_search_tree.py:143-160 | a tree is a valid search tree exactly when its in-order list strictly increases |
| BinarySearchTrees.BstInorderSorted | lab06/src/binary_search_tree.py:196-207 | a valid search tree lists its values in strictly increasing order |
| BinarySearchTrees.SortedInorderBst | lab06/src/binary_search_tree.py:143-160 | a tree whose in-order list strictly increases is a valid search tree |
| BinarySearchTrees.BstCount | lab06/src/binary_search_tree.py:182-194 | in a valid search tree the node count is the number of distinct values |
| BinarySearchTrees.SearchRecursive | lab06/src/binary_search_tree.py:65-74 | a value reported found is in the tree, and in a valid search tree every stored value is found |
| BinarySearchTrees.Inserted | lab06/src/binary_search_tree.py:24-56 | insertion adds the value to the values, keeps a valid search tree valid, and leaves the tree unchanged when the value is already stored |
| BinarySearchTrees.InsertedCount | lab06/src/binary_search_tree.py:40-56 | insertion adds one node exactly when the value was absent |
| BinarySearchTrees.Leftmost | lab06/src/binary_search_tree.py:108-113 | following left children reaches a stored value, the smallest one of a valid search tree |
| BinarySearchTrees.Rightmost | lab06/src/binary_search_tree.py:138-141 | following right children reaches a stored value, the largest one of a valid search tree |
| BinarySearchTrees.Deleted | lab06/src/binary_search_tree.py:83-106 | deletion never adds values, leaves the tree unchanged for an absent value, and turns a valid search tree into a valid one holding the same values without the deleted one |
| BinarySearchTrees.DeletedCount | lab06/src/binary_search_tree.py:83-106 | in a valid search tree deletion removes one node exactly when the value was present |
| BinarySearchTrees.ValidBetweenIff | lab06/src/binary_search_tree.py:151-160 | the bounded check accepts exactly the valid search trees whose values lie strictly between the bounds |
| BinarySearchTrees.HeightOf | lab06/src/binary_search_tree.py:174-180 | the recursive height is -1 exactly for the empty subtree and at least -1 otherwise |
| BinarySearchTrees.DepthAtMostHeight | lab06/src/binary_search_tree.py:174-180 | no node lies deeper than the height |
| BinarySearchTrees.HeightIsDeepest | lab06/src/binary_search_tree.py:174-180 | the height of a non-empty tree is the depth of its deepest node, and below the node count |
| BinarySearchTrees.BinarySearchTree.constructor | lab06/src/binary_search_tree.py:20-22 | a new tree is empty |
| BinarySearchTrees.BinarySearchTree.Insert | lab06/src/binary_search_tree.py:24-32 | the root becomes the inserted tree: the values gain the new one and a valid search tree stays valid |
| BinarySearchTrees.BinarySearchTree.InsertIterative | lab06/src/binary_search_tree.py:34-56 | the iterative descent builds exactly the tree insertion describes |
| BinarySearchTrees.BinarySearchTree.Search | lab06/src/binary_search_tree.py:58-63 | a value found is stored, and in a valid search tree the result is true exactly for the stored values |
| BinarySearchTrees.BinarySearchTree.Delete | lab06/src/binary_search_tree.py:76-81 | the root becomes the deleted tree: a valid search tree stays valid and loses exactly the value, and an absent value changes nothing |
| BinarySearchTrees.BinarySearchTree.FindMinNode | lab06/src/binary_search_tree.py:108-113 | the loop reaches a stored value, the smallest of a valid search tree |
| BinarySearchTrees.BinarySearchTree.FindMin | lab06/src/binary_search_tree.py:115-126 | nothing exactly when the tree searched (the given node, else the root) is empty, otherwise a stored value that is the smallest when the tree is valid |
| BinarySearchTrees.BinarySearchTree.FindMax | lab06/src/binary_search_tree.py:128-141 | nothing exactly when the tree searched is empty, otherwise a stored value that is the largest when the tree is valid |
| BinarySearchTrees.BinarySearchTree.IsValidBst | lab06/src/binary_search_tree.py:143-149 | true exactly when the tree is a valid search tree |
| BinarySearchTrees.BinarySearchTree.Height | lab06/src/binary_search_tree.py:162-172 | 0 for an empty tree, otherwise the depth of the deepest node of the tree measured |
| BinarySearchTrees.BinarySearchTree.Size | lab06/src/binary_search_tree.py:182-194 | the node count, the number of distinct values of a valid search tree |
| BinarySearchTrees.BinarySearchTree.ToListInorder | lab06/src/binary_search_tree.py:196-200 | the in-order list, holding every stored value and strictly increasing for a valid search tree |
| BinarySearchTrees.InorderInto | lab06/src/binary_search_tree.py:202-207 | appends the subtree's in-order list to the accumulated result |
| TreeTraversals.InorderRecursive | lab06/src/tree_traversal.py:11-24 | appends left subtree, node, right subtree to the accumulated list |
| TreeTraversals.PreorderRecursive | lab06/src/tree_traversal.py:27-40 | appends node, left subtree, right subtree to the accumulated list |
| TreeTraversals.PostorderRecursive | lab06/src/tree_traversal.py:43-56 | appends left subtree, right subtree, node to the accumulated list |
| TreeTraversals.PushStep | lab06/src/tree_traversal.py:70-72 | pushing the current node and moving left keeps the list still owed unchanged |
| TreeTraversals.PopStep | lab06/src/tree_traversal.py:75-79 | popping a node, recording its value and moving right keeps the list still owed unchanged |
| TreeTraversals.InorderIterative | lab06/src/tree_traversal.py:59-81 | the stack-based walk returns exactly the recursive in-order list |
| TreeTraversals.BfsServes | lab06/src/tree_traversal.py:95-102 | serving a queue front appends its roots and queues their children after the rest |
| TreeTraversals.BfsIsLevels | lab06/src/tree_traversal.py:95-102 | the queue walk lists a forest level after level |
| TreeTraversals.LevelOrderTraversal | lab06/src/tree_traversal.py:84-104 | the queue loop returns [] for an empty tree and otherwise the values level after level, left before right |
| TreeTraversals.InorderEachNodeOnce | lab06/src/tree_traversal.py:11-24 | the in-order list holds each node's value exactly once |
| TreeTraversals.PreorderEachNodeOnce | lab06/src/tree_traversal.py:27-40 | the pre-order list holds each node's value exactly once |
| TreeTraversals.PostorderEachNodeOnce | lab06/src/tree_traversal.py:43-56 | the post-order list holds each node's value exactly once |
| TreeTraversals.LevelsEachNodeOnce | lab06/src/tree_traversal.py:95-102 | the level-by-level list of a forest holds each node's value exactly once |
| TreeTraversals.LevelOrderEachNodeOnce | lab06/src/tree_traversal.py:84-104 | the breadth-first list holds each node's value exactly once |
| TreeTraversals.LevelBeyond | lab06/src/tree_traversal.py:84-104 | no node lies at a depth beyond the height |
| TreeTraversals.LevelOrderByDepth | lab06/src/tree_traversal.py:84-104 | the breadth-first list is the nodes of depth 0, then depth 1, and so on up to the height, each depth left to right |
| TreeTraversals.LevelOrderAllDepths | lab06/src/tree_traversal.py:84-104 | the same list read over as many depths as there are nodes |
| TreeTraversals.ByDepthTrim | lab06/src/tree_traversal.py:84-104 | depths past the height add nothing to the breadth-first list |
| BstTests.BuildSample | lab06/src/test_bst.py:26-51 | inserting 50, 30, 70, 20, 40, 60, 80 into an empty tree gives the full tree of height 2 |
| BstTests.InsertAndSearchTest | lab06/src/test_bst.py:284-307 | every inserted value is found and the three others are not |
| BstTests.InorderTest | lab06/src/test_bst.py:309-320 | the in-order list of the sample tree is [20, 30, 40, 50, 60, 70, 80] |
| BstTests.DeletionShapes | lab06/src/test_bst.py:69-101 | removing the leaf 20, then 30 with one child, then 50 with two children gives the expected trees, the last taking its successor 60 |
| BstTests.DeletionLists | lab06/src/test_bst.py:322-343 | those trees list [30, 40, 50, 60, 70, 80], [40, 50, 60, 70, 80] and [40, 60, 70, 80] |
| BstTests.DeleteTest | lab06/src/test_bst.py:322-343 | the three removals give the asserted in-order lists and none of the removed values is found afterwards |
| BstTests.FindMinMaxTest | lab06/src/test_bst.py:103-128 | the smallest and largest values of the sample tree are 20 and 80 |
| BstTests.ValidityTest | lab06/src/test_bst.py:130-150 | a built tree is valid and the hand-built tree with left child 60 under 50 is not |
| BstTests.HeightTest | lab06/src/test_bst.py:152-162 | this copy's height is -1, 0, 1 and 2 for the empty, one-node, three-node and five-node trees, while the lab's class gives 0 for the empty tree |
| BstTests.SizeTest | lab06/src/test_bst.py:164-174 | the sizes are 0, 1, 3 and 7 |
| BstTests.TraversalTest | lab06/src/test_bst.py:195-275 | on the sample tree the five traversals give the asserted lists |
| BstTests.SampleWalks | lab06/src/test_bst.py:424-434 | the in-, pre- and post-order lists of the sample tree |
| BstTests.SampleLevels | lab06/src/test_bst.py:440-442 | the breadth-first list of the sample tree |
| BstTests.FullTreeLevels | lab06/src/test_bst.py:255-275 | any full tree of height 2 is listed root, children, then the four leaves left to right |
| BstTests.EmptyTreeTest | lab06/src/test_bst.py:448-458 | the empty tree finds nothing, has height -1, size 0, an empty list, no extremes, and is valid |
| BstTests.SingleElementTest | lab06/src/test_bst.py:460-477 | a tree of 42 finds 42 and nothing else, has height 0, size 1, extremes 42, and is valid |
| BstTests.DuplicatesTest | lab06/src/test_bst.py:479-489 | inserting 50, 50, 30, 30 gives size 2 and the list [30, 50] |
| BstTests.AbsentDeletionTest | lab06/src/test_bst.py:491-501 | removing an absent value leaves size 3 and the list [30, 50, 70] |
| Heaps.Parent | lab07/src/heap.py:66 | `(i - 1) // 2` is the parent of child i: i is its left or right child, and it lies before i |
| Heaps.Swap | lab07/src/heap.py:72-73 | exchanging two entries swaps exactly those two, keeps the rest and the multiset |
| Heaps.Target | lab07/src/heap.py:90-98 | the sift-down target is the node itself or the child of strictly lower rank than it that ranks lowest among its children |
| Heaps.Sunk | lab07/src/heap.py:77-107 | sifting down keeps the length, the multiset and every entry past the heap size |
| Heaps.Raised | lab07/src/heap.py:54-75 | sifting up keeps the length and the multiset |
| Heaps.SunkHeap | lab07/src/heap.py:77-107 | sifting down a node whose subtrees are heaps makes its whole subtree a heap |
| Heaps.SinkStep | lab07/src/heap.py:100-107 | one exchange with the target keeps the heap ready for the next sift-down step |
| Heaps.RaisedHeap | lab07/src/heap.py:54-75 | sifting up the only out-of-place entry restores the heap |
| Heaps.RiseStep | lab07/src/heap.py:68-75 | one exchange with the parent moves the only violation one level up |
| Heaps.AppendReady | lab07/src/heap.py:118 | appending to a heap leaves only the new entry out of place |
| Heaps.Pushed | lab07/src/heap.py:109-119 | push adds exactly the value to the multiset and keeps a heap a heap |
| Heaps.RootLowest | lab07/src/heap.py:150-164 | the root ranks no higher than any entry of the heap |
| Heaps.RootLowestAll | lab07/src/heap.py:123-164 | the root ranks no higher than any stored element |
| Heaps.LeavesHeap | lab07/src/heap.py:180 | the second half of the array, the leaves, already satisfies the heap order |
| Heaps.Unrooted | lab07/src/heap.py:143 | moving the last entry to the root drops exactly the old root from the multiset |
| Heaps.UnrootedReady | lab07/src/heap.py:143-144 | after that move only the root is out of place |
| Heaps.Popped | lab07/src/heap.py:135-146 | removing the root and sifting down keeps a heap a heap |
| Heaps.SiftUp | lab07/src/heap.py:54-75 | the loop computes the sift-up |
| Heaps.SiftDown | lab07/src/heap.py:77-107 | the loop computes the sift-down |
| Heaps.Heapified | lab07/src/heap.py:168-181 | sifting down every inner node from the last to the root yields a heap with the same elements |
| Heaps.Heap.constructor | lab07/src/heap.py:9-19 | an empty valid heap in min or max mode (MinHeap and MaxHeap are the two modes) |
| Heaps.Heap.Length | lab07/src/heap.py:21-23 | the number of stored entries |
| Heaps.Heap.NonEmpty | lab07/src/heap.py:25-27 | true exactly when an entry is stored |
| Heaps.Heap.ShouldSwap | lab07/src/heap.py:37-52 | true exactly when the child ranks strictly lower than the parent: smaller in a min-heap, larger in a max-heap |
| Heaps.Heap.MoveUp | lab07/src/heap.py:54-75 | the entries become the sift-up of the old ones |
| Heaps.Heap.MoveDown | lab07/src/heap.py:77-107 | the entries become the sift-down of the old ones over the whole heap |
| Heaps.Heap.Push | lab07/src/heap.py:109-121 | the value is appended and sifted up: the multiset gains exactly it and a valid heap stays valid |
| Heaps.Heap.Pop | lab07/src/heap.py:123-148 | IndexError on an empty heap; otherwise the old root comes back, ranking no higher than any element of a valid heap, the multiset loses exactly it, the length drops by one and a valid heap stays valid |
| Heaps.Heap.Top | lab07/src/heap.py:150-166 | IndexError exactly on an empty heap; otherwise a stored element ranking no higher than any entry of a valid heap |
| Heaps.Heap.CreateFrom | lab07/src/heap.py:168-181 | the heap holds exactly the collection's elements and is valid |
| Heaps.Heap.Rebuild | lab07/src/heap.py:183-185 | the same elements, now a valid heap |
| Heaps.Heap.Validate | lab07/src/heap.py:187-212 | true exactly when no child should be swapped with its parent, i.e. the heap is valid |
| Heaps.Heap.Clear | lab07/src/heap.py:214-216 | the heap is empty and valid |
| Heaps.Heap.Items | lab07/src/heap.py:218-221 | the stored entries, same length and elements |
| Heaps.PopAll | lab07/src/heapsort.py:183-184 | popping a valid heap until empty yields every stored element once, in non-decreasing rank, and empties the heap |
| Heaps.HeapSortWithClass | lab07/src/heapsort.py:158-186 | the result is sorted and a permutation of the input |
| HeapSorts.HeapSortExtra | lab07/src/heapsort.py:6-86 | pushing every element into a min-heap list and popping the root until empty returns the input sorted ascending, a permutation of it |
| HeapSorts.DrainStep | lab07/src/heapsort.py:46-84 | one pop appends the heap's smallest element to the sorted output and keeps the drain state |
| HeapSorts.RemainingHeap | lab07/src/heapsort.py:51-80 | moving the last entry to the root and sifting it down leaves a heap holding the rest |
| HeapSorts.RemainingAbove | lab07/src/heapsort.py:48-84 | the next root is no smaller than the one just popped |
| HeapSorts.HeapifyDown | lab07/src/heapsort.py:103-135 | the array becomes the max-heap sift-down of its old contents over positions 0 to boundary |
| HeapSorts.LargestChild | lab07/src/heapsort.py:116-135 | the chosen index is the node itself, and then nothing moves, or a larger child within the boundary, exchanged before sifting on |
| HeapSorts.RootLargest | lab07/src/heapsort.py:148-150 | the root of a max-heap is its largest entry |
| HeapSorts.SortStep | lab07/src/heapsort.py:148-153 | moving the root past the boundary and sifting down keeps the sorted suffix above a heap prefix |
| HeapSorts.StepHeap | lab07/src/heapsort.py:150-153 | the shortened prefix is again a max-heap |
| HeapSorts.StepSettled | lab07/src/heapsort.py:150-153 | the suffix grows by one settled, sorted element |
| HeapSorts.SortStart | lab07/src/heapsort.py:144-148 | a built max-heap is the starting state of the sort phase |
| HeapSorts.SortDone | lab07/src/heapsort.py:148-155 | when the boundary reaches zero the whole array is sorted |
| HeapSorts.HeapSortInPlace | lab07/src/heapsort.py:89-155 | the given array is returned, sorted ascending, a permutation of its old contents |
| HeapBenchmark.Heapify | lab07/src/benchmark.py:119-132 | the recursive sift-down with an exclusive size bound computes the max-heap sift-down of the lab's heap sort |
| HeapBenchmark.PerformInplaceHeapSort | lab07/src/benchmark.py:117-145 | the array ends sorted ascending, a permutation of its old contents |
| HeapBenchmark.MergedRightPermutes | lab07/src/benchmark.py:328-343 | the merge that takes the right element on a tie keeps every element of both inputs |
| HeapBenchmark.MergedRightSorted | lab07/src/benchmark.py:328-343 | merging two sorted lists that way gives a sorted list starting with one of their heads |
| HeapBenchmark.SortedUnique | lab07/src/benchmark.py:328-343 | two sorted lists with the same elements are equal |
| HeapBenchmark.MergedRightAgrees | lab07/src/benchmark.py:328-343 | on sorted integer lists this merge gives the same list as the lab's stable merge |
| HeapBenchmark.MergeSortedSequences | lab07/src/benchmark.py:328-343 | the two-index loop computes that merge |
| HeapBenchmark.RightStep | lab07/src/benchmark.py:333-339 | one loop step takes the left head when it is strictly smaller, else the right head |
| HeapBenchmark.RightRest | lab07/src/benchmark.py:341-342 | once one side is used up the rest of both sides is appended |
| HeapBenchmark.ExecuteMergeSort | lab07/src/benchmark.py:317-326 | the result is sorted and a permutation of the input |
| PriorityQueues.Less | lab07/src/priority_queue.py:27-31 | one node is below another exactly when its priority is smaller |
| PriorityQueues.AtMost | lab07/src/priority_queue.py:33-37 | one node is at most another exactly when its priority is no larger |
| PriorityQueues.Equals | lab07/src/priority_queue.py:39-44 | two nodes are equal exactly when payload and priority agree |
| PriorityQueues.NodeOrder | lab07/src/priority_queue.py:27-44 | the comparisons agree with each other: at-most is not-greater, below is asymmetric, at-most is transitive, equal nodes are at most each other, and equal priorities are not below each other |
| PriorityQueues.NodesOf | lab07/src/priority_queue.py:87-89 | one node per initial pair |
| PriorityQueues.Payloads | lab07/src/priority_queue.py:130 | the payloads of nodes, in order |
| PriorityQueues.HeapPriorityQueue.constructor | lab07/src/priority_queue.py:69-89 | a valid queue holding exactly one node per pair of the initial data |
| PriorityQueues.HeapPriorityQueue.Add | lab07/src/priority_queue.py:91-108 | the stored nodes gain exactly the new node and the queue stays valid |
| PriorityQueues.HeapPriorityQueue.IsEmpty | lab07/src/priority_queue.py:160-172 | true exactly when no node is stored |
| PriorityQueues.HeapPriorityQueue.Length | lab07/src/priority_queue.py:174-186 | the number of stored nodes |
| PriorityQueues.HeapPriorityQueue.FrontForemost | lab07/src/priority_queue.py:134-154 | the heap's root has a priority no larger than any stored node |
| PriorityQueues.HeapPriorityQueue.Peek | lab07/src/priority_queue.py:134-158 | IndexError exactly for an empty queue, otherwise the payload of a node of smallest priority |
| PriorityQueues.HeapPriorityQueue.Remove | lab07/src/priority_queue.py:110-132 | returns what peek returns; an empty queue raises IndexError and keeps its nodes, otherwise exactly that node leaves |
| PriorityQueues.HeapPriorityQueue.Iterate | lab07/src/priority_queue.py:192-212 | the payloads of all stored nodes in non-decreasing priority, and the queue is left empty |
| PriorityQueues.HeapPriorityQueue.Clear | lab07/src/priority_queue.py:222-227 | no node remains and the queue is valid |
| PriorityQueues.HeapPriorityQueue.Contains | lab07/src/priority_queue.py:229-251 | on the heap path the answer is always false |
| PriorityQueues.HeapPriorityQueue.ContainsMissesStored | lab07/src/priority_queue.py:242-251 | a stored payload, asked with or without its priority, is reported absent |
| PriorityQueues.HeapPriorityQueue.ContainsCorrected | lab07/src/priority_queue.py:242-246 | true exactly when a stored node has the payload and, if given, the priority |
| PriorityQueues.TakeFront | lab07/src/priority_queue.py:206-208 | removing the foremost node extends a sorted removal order that stays ahead of the rest and loses no node |
| PriorityQueues.RunTests | lab07/src/priority_queue.py:325-368 | size 3 and peek "Задача B"; removal gives B, C, A; the empty queue has size 0 and raises IndexError; iteration gives Y, X, Z |
| PriorityQueues.RemovalOrder | lab07/src/priority_queue.py:330-345 | after adding A@5, B@1, C@3 the size is 3, peek is B, and removals give B, C, A |
| PriorityQueues.AddThenRemove | lab07/src/priority_queue.py:333-345 | for any three nodes whose priorities order b, c, a, removals give b, c, a |
| PriorityQueues.RemoveUnique | lab07/src/priority_queue.py:110-130 | a node of strictly smallest priority is the one removed |
| PriorityQueues.EmptyQueue | lab07/src/priority_queue.py:349-357 | a new queue has size 0 and removing raises IndexError |
| PriorityQueues.AddThenIterate | lab07/src/priority_queue.py:360-365 | iterating three nodes with priorities y < x < z gives y, x, z |
| PriorityQueues.ThreeInOrder | lab07/src/priority_queue.py:192-212 | three nodes of distinct priorities have exactly one sorted order |
| PriorityQueues.HeapPriorityQueue.Front | lab07/src/priority_queue.py:134-158 | the node at the heap's root is a stored node of the smallest priority |
| PriorityQueues.AddThree | lab07/src/priority_queue.py:330-335 | a fresh queue after three adds holds exactly the three nodes |
| PriorityQueues.RemoveThree | lab07/src/priority_queue.py:341-345 | draining three nodes of priorities b < c < a gives b, c, a and leaves the queue empty |
| PriorityQueues.RemoveTwo | lab07/src/priority_queue.py:341-345 | draining two nodes of priorities c < a gives c, a and leaves the queue empty |
| PriorityQueues.Iteration | lab07/src/priority_queue.py:359-365 | X@2, Y@1, Z@3 added to the emptied queue are iterated as Y, X, Z |
| HeapDiagrams.Render | lab07/src/visualize.py:9-62 | an index past the array draws nothing |
| HeapDiagrams.RenderSplit | lab07/src/visualize.py:37-60 | a node's drawing is its right subtree (prefix extended), its own line, then its left subtree |
| HeapDiagrams.RenderLines | lab07/src/visualize.py:9-62 | the drawing of a subtree is one line per node, in reverse in-order, each line being the node's path prefix, connector and value |
| HeapDiagrams.LinesShift | lab07/src/visualize.py:40-60 | drawing a child with the extended prefix gives the same lines as drawing those nodes from the parent |
| HeapDiagrams.PrefixShift | lab07/src/visualize.py:43-58 | a node's prefix seen from a child equals its prefix seen from the parent |
| HeapDiagrams.ChildSubtrees | lab07/src/visualize.py:38-53 | a node other than i lies under i exactly when it lies under one of i's two children |
| HeapDiagrams.RootReachesAll | lab07/src/visualize.py:10 | every index lies under the root |
| HeapDiagrams.OrderMembers | lab07/src/visualize.py:32-60 | the drawing order of a subtree lists exactly its nodes that are array indices |
| HeapDiagrams.OrderDistinct | lab07/src/visualize.py:32-60 | the drawing order lists no node twice |
| HeapDiagrams.WholeDiagram | lab07/src/visualize.py:9-62 | the diagram from the root draws every array entry exactly once, one line each |
| Scheduling.Scan | lab08/src/greedy_algorithms.py:27-34 | the greedy loop keeps at most the intervals it is given |
| Scheduling.ScanSchedule | lab08/src/greedy_algorithms.py:30-34 | the kept intervals form a chain, each starting no earlier than the previous one ends, drawn from the input in order, and the first input interval is always kept |
| Scheduling.Kept | lab08/src/greedy_algorithms.py:32-34 | appending an interval that starts at or after the last kept end extends the chain |
| Scheduling.LastKeptEnds | lab08/src/greedy_algorithms.py:30-34 | on input ordered for the greedy, the last kept interval ends no later than the next one |
| Scheduling.ScanSorted | lab08/src/greedy_algorithms.py:25-34 | on input sorted by end the kept intervals are sorted by end |
| Scheduling.ChainOrder | lab08/src/greedy_algorithms.py:30-34 | in a chain of well-formed intervals every earlier interval ends before every later one starts |
| Scheduling.ScanOptimal | lab08/src/greedy_algorithms.py:10-34 | on well-formed input in greedy order no chain drawn from the input is longer than the greedy's, and one as long ends no earlier |
| Scheduling.OptimalWithoutNewest | lab08/src/greedy_algorithms.py:30-34 | the exchange argument for a chain that avoids the last input interval |
| Scheduling.OptimalWithNewest | lab08/src/greedy_algorithms.py:30-34 | the exchange argument for a chain that ends with the last input interval |
| Scheduling.ScanStep | lab08/src/greedy_algorithms.py:30-34 | one loop step keeps the interval exactly when it starts at or after the last kept end, which is no later than its own end |
| Scheduling.ProperOrder | lab08/src/greedy_algorithms.py:25 | input sorted by end with positive-length intervals is in greedy order and well formed |
| Scheduling.SelectCompatible | lab08/src/greedy_algorithms.py:27-36 | the loop computes the greedy selection over its input |
| Scheduling.IntervalScheduling | lab08/src/greedy_algorithms.py:8-36 | empty input gives []; otherwise the input is stably sorted by end and the greedy runs over it: the result is a chain drawn from the input, sorted by end, starting with an earliest-ending input interval, and when every interval has positive length no pairwise-compatible selection is longer |
| Scheduling.Settle | lab08/src/greedy_algorithms.py:25-34 | the greedy over a sorted permutation is drawn from the input, starts earliest, and is optimal under positive lengths |
| Scheduling.Insert | lab08/src/greedy_algorithms.py:10-11 | inserting into a list adds exactly one element |
| Scheduling.LexSort | lab08/src/greedy_algorithms.py:10-11 | any selection can be reordered by end then start with the same elements |
| Scheduling.LexSortOrdered | lab08/src/greedy_algorithms.py:10-11 | that reordering is ordered and keeps pairwise compatibility |
| Scheduling.CompatibleChain | lab08/src/greedy_algorithms.py:10-11 | pairwise-compatible well-formed intervals in that order form a chain |
| Scheduling.CompatibleBound | lab08/src/greedy_algorithms.py:10-34 | no pairwise-compatible selection drawn from well-formed input in greedy order is longer than the greedy's |
| Scheduling.WithKeyKeeps | lab08/src/greedy_algorithms.py:25 | an element is among the elements sharing its key |
| Scheduling.WithKeyOrder | lab08/src/greedy_algorithms.py:25 | two elements with the same key keep their relative order among the elements with that key |
| Scheduling.WithKeySorted | lab08/src/greedy_algorithms.py:25 | the elements sharing a key keep any order the whole list has |
| Scheduling.StableByEnd | lab08/src/greedy_algorithms.py:25 | a stable sort by end of a list sorted by start is ordered by end, then start |
| Scheduling.LexGreedy | lab08/src/greedy_algorithms.py:25-34 | well-formed intervals ordered by end then start are in greedy order |
| Scheduling.IntervalSchedulingCorrected | lab08/src/greedy_algorithms.py:8-36 | with ties on the end broken by start the result is again a chain drawn from the input sorted by end, and for every well-formed input, zero-length intervals included, no pairwise-compatible selection is longer |
| Scheduling.CorrectedSettles | lab08/src/greedy_algorithms.py:25-34 | the greedy over input ordered by end then start is optimal for every well-formed input |
| Scheduling.TieDropsEmptyInterval | lab08/src/greedy_algorithms.py:25-34 | on [(3, 3), (1, 3)] the stable sort by end keeps the order and the loop keeps only (3, 3), though (1, 3) and (3, 3) are compatible |
| Scheduling.TieScan | lab08/src/greedy_algorithms.py:30-34 | the loop over [(3, 3), (1, 3)] keeps only (3, 3) |
| Scheduling.TiePair | lab08/src/greedy_algorithms.py:10-11 | (1, 3) and (3, 3) are compatible and drawn from that input |
| Scheduling.TieKeepsOrder | lab08/src/greedy_algorithms.py:25 | the stable sort by end leaves [(3, 3), (1, 3)] as it is |
| Scheduling.SortedByUnique | lab08/src/greedy_algorithms.py:25 | a sorted permutation of a list whose keys strictly increase is that list |
| Scheduling.SampleEnds | lab08/src/greedy_algorithms.py:95 | the sample's ends strictly increase |
| Scheduling.SampleScan | lab08/src/greedy_algorithms.py:95-96 | the loop over the sample keeps (1, 3), (3, 6), (6, 8) |
| Scheduling.Sample | lab08/src/greedy_algorithms.py:95-100 | the sample selects [(1, 3), (3, 6), (6, 8)] |
| Scheduling.ScheduleStrictlyOrdered | lab08/src/greedy_algorithms.py:25-34 | on input whose ends strictly increase the result is the greedy over the input as given |
| DynamicProgramming.Max | lab09/src/dynamic_programming.py:92-95 | the larger of the two, at least each |
| DynamicProgramming.FibonacciBottomUp | lab09/src/dynamic_programming.py:8-33 | n itself for n <= 1, otherwise the n-th Fibonacci number of the recursive definition |
| DynamicProgramming.FibonacciOptimized | lab09/src/dynamic_programming.py:36-58 | the same answers with two variables instead of the table |
| DynamicProgramming.FibonacciVersions | lab09/src/dynamic_programming.py:159-162 | both versions agree on every n, and give 55 for n = 10 |
| DynamicProgramming.FibTen | lab09/src/dynamic_programming.py:160-162 | the 10th Fibonacci number is 55 |
| DynamicProgramming.ReconstructFits | lab09/src/dynamic_programming.py:134-143 | the walk back recovers increasing item indices that fit in the capacity and are worth exactly the table's cell |
| DynamicProgramming.ReconstructChoice | lab09/src/dynamic_programming.py:137-140 | the recovered items are increasing indices that fit |
| DynamicProgramming.ReconstructWorth | lab09/src/dynamic_programming.py:137-140 | the recovered items are worth exactly the cell |
| DynamicProgramming.ReconstructStep | lab09/src/dynamic_programming.py:138-140 | an item is taken exactly when its cell differs from the one above, and then its weight is what the capacity loses |
| DynamicProgramming.FillTable | lab09/src/dynamic_programming.py:82-98 | the loops fill every cell with its recurrence value when every weight exists and is non-negative, and report otherwise |
| DynamicProgramming.Knapsack01BottomUp | lab09/src/dynamic_programming.py:61-100 | 0 for no items or capacity 0; IndexError for a negative capacity; otherwise the last cell, reached by some fitting choice worth exactly it, and with every weight at least 1 no fitting choice is worth more |
| DynamicProgramming.Optimal | lab09/src/dynamic_programming.py:85-98 | when no weight is below the first column filled, no fitting choice is worth more than the last cell |
| DynamicProgramming.Reversed | lab09/src/dynamic_programming.py:142 | the list back to front |
| DynamicProgramming.WalkBack | lab09/src/dynamic_programming.py:134-142 | the loop and the reversal give the walk back from the last cell |
| DynamicProgramming.KnapsackWithReconstruction | lab09/src/dynamic_programming.py:103-143 | the same value together with the increasing indices recovered by the walk, which fit and are worth that value; optimal when every weight is at least 1 |
| DynamicProgramming.Knapsack01Corrected | lab09/src/dynamic_programming.py:82-100 | with column 0 filled too, the last cell is worth exactly some fitting choice and no fitting choice is worth more, for all non-negative weights and capacity 0 included |
| DynamicProgramming.ZeroWeightCells | lab09/src/dynamic_programming.py:78-86 | for values [5, 10], weights [0, 3] and capacity 3 the as-written table gives 10, the corrected one 15, and both items fit for 15 |
| DynamicProgramming.ZeroWeightMissed | lab09/src/dynamic_programming.py:61-100 | that input gives 10 as written |
| DynamicProgramming.ZeroWeightCounted | lab09/src/dynamic_programming.py:82-100 | that input gives 15 with the corrected loop |
| DynamicProgramming.SampleCells | lab09/src/dynamic_programming.py:166-180 | the sample's last cell is 220 and the walk recovers items 1 and 2 |
| DynamicProgramming.KnapsackSample | lab09/src/dynamic_programming.py:166-180 | the sample gives 220, and (220, [1, 2]) with reconstruction, and no fitting choice is worth more |
| DynamicProgramming.CellOptimal | lab09/src/dynamic_programming.py:88-98 | every fitting choice is worth at most its cell |
| DynamicProgramming.CellAtLeastZero | lab09/src/dynamic_programming.py:82-98 | no cell is negative |
| DynamicProgramming.CellGrows | lab09/src/dynamic_programming.py:92-95 | a cell is at least the one above it |
| GraphRepresentation.Size | lab10/src/graph_representation.py:28 | `range(vertices)` yields `vertices` rows for a non-negative count and none for a negative one |
| GraphRepresentation.RowCount | lab10/src/graph_representation.py:96-98 | the non-zero entries of a row are at most its length |
| GraphRepresentation.RowCountUpdate | lab10/src/graph_representation.py:42-44 | writing one entry changes the row count by whether the old and the new value are non-zero |
| GraphRepresentation.NonZeroUpdate | lab10/src/graph_representation.py:94-98 | replacing one row changes the counted total by the difference of the two rows' counts |
| GraphRepresentation.LoopsUpdate | lab10/src/graph_representation.py:94-98 | replacing one row changes the diagonal count only through that row's diagonal entry |
| GraphRepresentation.Placed | lab10/src/graph_representation.py:41-55 | the matrix after `add_edge` or `remove_edge` keeps its number of rows |
| GraphRepresentation.PlacedFacts | lab10/src/graph_representation.py:41-55 | the weight lands in `[u][v]` (and `[v][u]` when undirected) only when both ends are vertices; every other entry is unchanged; the matrix stays square and an undirected one stays symmetric |
| GraphRepresentation.OneEntry | lab10/src/graph_representation.py:94-98 | turning one zero entry non-zero adds one to the count, and one diagonal entry when i = j |
| GraphRepresentation.EntriesAdded | lab10/src/graph_representation.py:41-44 | adding an absent edge with a non-zero weight stores one new non-zero entry (directed or self-loop) or two (undirected, distinct ends) |
| GraphRepresentation.EdgeAdded | lab10/src/graph_representation.py:41-44 | adding an absent edge raises `get_edge_count` by one, except that an undirected self-loop leaves the count at (non-zero + 1) / 2 |
| GraphRepresentation.EdgeAddedCorrected | lab10/src/graph_representation.py:92-101 | with diagonal entries counted twice before halving, every newly added edge raises the count by exactly one |
| GraphRepresentation.SingleLoop | lab10/src/graph_representation.py:28-44 | a one-vertex undirected matrix with a self-loop holds one non-zero entry, on the diagonal |
| GraphRepresentation.Without | lab10/src/graph_representation.py:149-152 | the comprehension keeps exactly the pairs whose neighbour is not `v`, and never grows the list |
| GraphRepresentation.WithoutLists | lab10/src/graph_representation.py:149-152 | after filtering, `x` is listed iff it differs from `v` and was listed before |
| GraphRepresentation.AppendLists | lab10/src/graph_representation.py:138-140 | after appending a pair, `x` is listed iff it is the pair's neighbour or was listed before |
| GraphRepresentation.TotalUpdate | lab10/src/graph_representation.py:191-193 | replacing one list changes the summed length by the difference of the two lengths |
| GraphRepresentation.SingleLoopListed | lab10/src/graph_representation.py:137-140 | an undirected self-loop stores the pair twice in the one list, so the total is 2 |
| GraphRepresentation.Linked | lab10/src/graph_representation.py:137-140 | `add_edge` on the lists keeps their number |
| GraphRepresentation.Unlinked | lab10/src/graph_representation.py:148-152 | `remove_edge` on the lists keeps their number |
| GraphRepresentation.AppendInBounds | lab10/src/graph_representation.py:138-140 | appending a pair whose neighbour is a vertex keeps every neighbour in range |
| GraphRepresentation.LinkedFacts | lab10/src/graph_representation.py:137-140 | adding an edge between vertices lists `v` at `u` (and `u` at `v` when undirected), keeps every other relation, keeps neighbours in range and undirected lists mutual, and adds 1 or 2 pairs |
| GraphRepresentation.UnlinkedFacts | lab10/src/graph_representation.py:148-152 | removing an edge unlists `v` at `u` (and `u` at `v` when undirected), keeps every other relation, and keeps neighbours in range and undirected lists mutual |
| GraphRepresentation.AdjacencyMatrix.constructor | lab10/src/graph_representation.py:18-28 | a `vertices` by `vertices` matrix of zeros (none for a negative count): no edge at all |
| GraphRepresentation.AdjacencyMatrix.HasEdgeBothWays | lab10/src/graph_representation.py:57-68 | in an undirected matrix `has_edge(u, v)` iff `has_edge(v, u)` |
| GraphRepresentation.AdjacencyMatrix.AddEdge | lab10/src/graph_representation.py:30-44 | the new matrix is the placed one; for two vertices the edge is then seen iff the weight is non-zero |
| GraphRepresentation.AdjacencyMatrix.RemoveEdge | lab10/src/graph_representation.py:46-55 | the entries become 0 and the edge is seen from neither end (undirected) or from `u` (directed) |
| GraphRepresentation.AdjacencyMatrix.GetNeighbors | lab10/src/graph_representation.py:70-84 | `[]` for a non-vertex; otherwise exactly the pairs (neighbour, weight) of the row's edges, by increasing neighbour |
| GraphRepresentation.AdjacencyMatrix.CountNonZero | lab10/src/graph_representation.py:94-98 | the nested loop counts every non-zero entry of the matrix |
| GraphRepresentation.AdjacencyMatrix.GetEdgeCount | lab10/src/graph_representation.py:92-101 | the non-zero entries, floor-halved when undirected |
| GraphRepresentation.AdjacencyMatrix.GetEdgeCountCorrected | lab10/src/graph_representation.py:92-101 | the count as intended: self-loops weighed twice before halving |
| GraphRepresentation.AdjacencyList.constructor | lab10/src/graph_representation.py:114-124 | one empty list per vertex (none for a negative count) |
| GraphRepresentation.AdjacencyList.AddEdge | lab10/src/graph_representation.py:126-140 | for two vertices the edge is seen at `u` (and at `v` when undirected) and 1 or 2 pairs are added, duplicates included; every other relation is unchanged |
| GraphRepresentation.AdjacencyList.RemoveEdge | lab10/src/graph_representation.py:142-152 | the edge is then seen from neither end (undirected) or from `u` (directed); every other relation is unchanged |
| GraphRepresentation.AdjacencyList.HasEdge | lab10/src/graph_representation.py:154-167 | true iff `u` is a vertex whose list names `v` |
| GraphRepresentation.AdjacencyList.GetNeighbors | lab10/src/graph_representation.py:169-180 | names exactly the neighbours of the vertex, all in range; `[]` for a non-vertex |
| GraphRepresentation.AdjacencyList.GetEdgeCount | lab10/src/graph_representation.py:189-196 | the stored pairs, floor-halved when undirected |
| GraphRepresentation.SelfLoopCounts | lab10/src/graph_representation.py:92-101 | for one undirected self-loop the list counts 1 edge, the matrix as written 0, the corrected matrix count 1 |
| GraphTraversal.ReachSelf | lab10/src/graph_traversal.py:96-97 | every vertex reaches itself by the empty walk |
| GraphTraversal.ReachStep | lab10/src/graph_traversal.py:98-100 | a walk to `u` followed by an edge from `u` to `v` is a walk to `v` |
| GraphTraversal.PathStaysIn | lab10/src/graph_traversal.py:98-100 | a walk that starts in a set closed under edges ends in it |
| GraphTraversal.DistinctCard | lab10/src/graph_traversal.py:99-124 | a list without repeats has as many elements as its set |
| GraphTraversal.DistinctBound | lab10/src/graph_traversal.py:99-124 | a visited list without repeats over `n` vertices has at most `n` entries |
| GraphTraversal.BoundedCard | lab10/src/graph_traversal.py:99-124 | a set of vertices below `n` has at most `n` members |
| GraphTraversal.PrefixIn | lab10/src/graph_traversal.py:97 | appending to the visited list never removes a vertex |
| GraphTraversal.Grown | lab10/src/graph_traversal.py:97 | appending an unlisted vertex keeps the list distinct, in range and no longer than the vertex count |
| GraphTraversal.Dfs | lab10/src/graph_traversal.py:96-100 | the recursion extends the visited list it starts from, puts `v` right after it, and stays distinct and in range |
| GraphTraversal.DfsAll | lab10/src/graph_traversal.py:98-100 | the neighbour loop extends the visited list and keeps it distinct and in range |
| GraphTraversal.Pushes | lab10/src/graph_traversal.py:127-130 | every pushed vertex is a listed neighbour that is not yet visited |
| GraphTraversal.IterPop | lab10/src/graph_traversal.py:122-130 | popping a visited vertex changes nothing; popping an unvisited one visits it and pushes its unvisited neighbours on top |
| GraphTraversal.IterVisits | lab10/src/graph_traversal.py:96-100 | the stack loop with `v` on top visits what the recursion from `v` visits, then carries on with the rest of the stack |
| GraphTraversal.IterVisitsAll | lab10/src/graph_traversal.py:98-100 | pushing neighbours in reverse and looping visits what the recursive neighbour loop visits |
| GraphTraversal.PushesIn | lab10/src/graph_traversal.py:127-130 | only vertices are ever pushed |
| GraphTraversal.IterIsDfs | lab10/src/graph_traversal.py:81-132 | the iterative search from `[start]` gives the same visit order as the recursive one |
| GraphTraversal.DfsCovers | lab10/src/graph_traversal.py:96-100 | everything the recursion newly visits is reachable from the root, and each such vertex ends with all its neighbours visited |
| GraphTraversal.DfsAllCovers | lab10/src/graph_traversal.py:98-100 | after the neighbour loop every listed neighbour is visited and the new vertices are covered in the same sense |
| GraphTraversal.CoversGrow | lab10/src/graph_traversal.py:96-100 | coverage shown for two consecutive stretches of the visited list holds for both together |
| GraphTraversal.DfsReaches | lab10/src/graph_traversal.py:81-103 | the recursion from `start` visits `start` first and exactly the reachable vertices, each once |
| GraphTraversal.DfsUtil | lab10/src/graph_traversal.py:96-100 | the method's visited list is the one of the recursive definition |
| GraphTraversal.DfsRecursive | lab10/src/graph_traversal.py:81-103 | `[start]` for a vertex outside the lists; otherwise `start` first and then exactly the vertices reachable from it, each once |
| GraphTraversal.PushUnvisited | lab10/src/graph_traversal.py:127-130 | the stack gains the unvisited neighbours, last pair first |
| GraphTraversal.PopVisit | lab10/src/graph_traversal.py:123-130 | one round keeps the outcome of the rest of the loop and either visits a new vertex or shrinks the stack |
| GraphTraversal.DfsIterative | lab10/src/graph_traversal.py:106-132 | `[start]` for a vertex outside the lists; otherwise the recursive visit order |
| GraphTraversal.StampsJoin | lab10/src/graph_traversal.py:155-165 | two blocks timed one after the other are timed together |
| GraphTraversal.StampsAppend | lab10/src/graph_traversal.py:155-165 | a later block joins an earlier one whose stamps it left alone |
| GraphTraversal.StampsRoot | lab10/src/graph_traversal.py:156-165 | a vertex whose interval encloses a timed block is timed in front of it |
| GraphTraversal.StampsFinish | lab10/src/graph_traversal.py:164-165 | finishing a vertex at the block's end time closes its interval around the block |
| GraphTraversal.StampsKept | lab10/src/graph_traversal.py:157-164 | a block's stamps survive writes to vertices outside it |
| GraphTraversal.StampsDistinct | lab10/src/graph_traversal.py:157-165 | within a timed block no discovery time equals a finish time and no two vertices share one |
| GraphTraversal.TimedVisit | lab10/src/graph_traversal.py:155-165 | visits in the recursive order, gives `vertex` the current time on entry and the last time on exit, and times every newly visited vertex with nested intervals |
| GraphTraversal.Started | lab10/src/graph_traversal.py:156-158 | right after discovery the search of `vertex` is under way at time + 1 |
| GraphTraversal.Advanced | lab10/src/graph_traversal.py:160-162 | after each neighbour's search the timed block grows and earlier stamps stay |
| GraphTraversal.KeptBlock | lab10/src/graph_traversal.py:160-162 | a later search leaves the stamps of earlier vertices as they were |
| GraphTraversal.Finished | lab10/src/graph_traversal.py:164-165 | after the loop, finishing `vertex` at the current time times the whole block |
| GraphTraversal.FromScratch | lab10/src/graph_traversal.py:150-153 | a search from lists of -1 and the clock at 0 leaves every visited vertex timed |
| GraphTraversal.DfsWithTimestamps | lab10/src/graph_traversal.py:135-168 | IndexError for a start past either end; the Python wrap-around for a negative start; otherwise the recursive visit order with nested, distinct discovery and finish times |
| GraphBfs.At | lab10/src/graph_traversal.py:28-39 | the entry for an in-range index, the "unset" mark -1 elsewhere |
| GraphBfs.Slot | lab10/src/graph_traversal.py:32 | Python list indexing: a negative index `i` names entry n + i, a non-negative one itself |
| GraphBfs.DistStep | lab10/src/graph_traversal.py:39-40 | a walk of `d` edges followed by an edge is a walk of `d + 1` edges |
| GraphBfs.PathExtend | lab10/src/graph_traversal.py:39-42 | a walk followed by one more edge is a walk from the same first vertex |
| GraphBfs.EnqueuedBound | lab10/src/graph_traversal.py:34-42 | a vertex already in the queue order is at most one step further than the vertex being scanned |
| GraphBfs.LabelledGrow | lab10/src/graph_traversal.py:39-42 | enqueuing an unlabelled neighbour with distance + 1 and `current` as parent keeps every label a parent edge one step closer, and changes no earlier distance |
| GraphBfs.LayeredGrow | lab10/src/graph_traversal.py:39-42 | the queue order stays sorted by distance, in layers at most one apart |
| GraphBfs.ClosedGrow | lab10/src/graph_traversal.py:36-42 | enqueuing a new vertex keeps every dequeued vertex's neighbours enqueued |
| GraphBfs.Relax | lab10/src/graph_traversal.py:39-42 | after one neighbour the loop invariant holds, the neighbour is enqueued, and no earlier distance changes |
| GraphBfs.Scan | lab10/src/graph_traversal.py:38-42 | after the neighbour loop `current` is dequeued with all its neighbours enqueued, and the loop invariant holds |
| GraphBfs.ScanDone | lab10/src/graph_traversal.py:38-42 | once every neighbour is enqueued, `current` is closed |
| GraphBfs.Round | lab10/src/graph_traversal.py:34-42 | one round keeps the loop invariant and visits one more vertex, never more than the vertex count |
| GraphBfs.Finished | lab10/src/graph_traversal.py:34-44 | with an empty queue the result is a complete search |
| GraphBfs.WalkBound | lab10/src/graph_traversal.py:34-44 | along any walk from the start, the dequeued distances grow by at most one per edge, so no shorter walk is missed |
| GraphBfs.Bfs | lab10/src/graph_traversal.py:12-44 | IndexError for a start past either end; Python wrap-around for a negative start; otherwise `start` first, exactly the reachable vertices once each in non-decreasing distance, -1 exactly for the unreached, shortest distances, and parents one edge closer |
| GraphBfs.Chain | lab10/src/graph_traversal.py:71-75 | the parent chain is empty exactly when it starts at -1 |
| GraphBfs.Reverse | lab10/src/graph_traversal.py:76 | `list.reverse()`: the same length with the elements back to front |
| GraphBfs.ReverseFront | lab10/src/graph_traversal.py:76 | reversing x followed by t puts x at the back |
| GraphBfs.SearchedRooted | lab10/src/graph_traversal.py:41 | the parents of a search from an in-range start all lead back to the start |
| GraphBfs.ParentOf | lab10/src/graph_traversal.py:39-42 | a reached vertex other than the start has a reached parent one edge and one distance step back |
| GraphBfs.ReachedDistance | lab10/src/graph_traversal.py:28-40 | a visited vertex is in range with a distance of at least 0 |
| GraphBfs.ChainWalk | lab10/src/graph_traversal.py:71-76 | the reversed parent chain from a reached vertex is a walk from the start to it with distance + 1 vertices |
| GraphBfs.ShortestPath | lab10/src/graph_traversal.py:47-78 | `([start], 0)` when start = end; IndexError for an out-of-range start or end; otherwise -1 and `[]` exactly when `end` is unreachable, else a shortest walk from `start` to `end` and its length |
| GraphBfs.ReadBack | lab10/src/graph_traversal.py:71-76 | the loop and the reversal give the reversed parent chain from `end` |
| GraphBfs.ShortestAnswer | lab10/src/graph_traversal.py:65-78 | reading back from a complete search gives the promised shortest walk and distance, or `[]` and -1 |
| PrefixFunction.LongestBelow | lab11/src/prefix_function.py:11-12 | the longest proper border of `s` of length at most `k`: a border, and no longer one up to `k` is |
| PrefixFunction.LongestBorder | lab11/src/prefix_function.py:11-12 | π of a non-empty string: a proper border, and no longer proper border exists |
| PrefixFunction.LongestIs | lab11/src/prefix_function.py:11-12 | any border with no longer proper border above it is the longest one |
| PrefixFunction.BorderOfBorder | lab11/src/prefix_function.py:40-41 | a length below a border `j` is a border of `s` iff it is a border of `s[..j]` |
| PrefixFunction.BorderExtend | lab11/src/prefix_function.py:44-45 | appending `c` turns border `k` into border `k + 1` exactly when `s[k] == c` |
| PrefixFunction.BorderChain | lab11/src/prefix_function.py:40-41 | falling back from border `j` to pi[j - 1] gives a shorter border and skips no border in between |
| PrefixFunction.Extended | lab11/src/prefix_function.py:40-47 | when the fall-back stops, pi[i] is j + 1 if the characters match and 0 otherwise |
| PrefixFunction.NextEntry | lab11/src/prefix_function.py:36-47 | one pass of the outer loop computes the longest proper border of pattern[0..i] |
| PrefixFunction.ComputePrefixFunction | lab11/src/prefix_function.py:7-49 | `[]` for the empty pattern; otherwise entry i is the longest proper border of pattern[0..i] |
| PrefixFunction.PrefixFunctionShape | lab11/src/prefix_function.py:33-47 | one entry per character, pi[0] = 0, pi[i] <= i, and pi grows by at most one per step |
| PrefixFunction.NotBorder | lab11/src/prefix_function.py:11-12 | one differing pair of characters rules a border out |
| PrefixFunction.AbababcaSample | lab11/src/prefix_function.py:24-27 | the documented example: "abababca" gives [0, 0, 1, 2, 3, 4, 0, 1] |
| PrefixFunction.BorderPeriod | lab11/src/prefix_function.py:91-92 | a border of length k is the same as a period of length n - k |
| PrefixFunction.SmallestPeriod | lab11/src/prefix_function.py:91-92 | n minus the longest border is a period and no smaller positive period exists |
| PrefixFunction.MinPeriod | lab11/src/prefix_function.py:91-92 | the smallest period: a period with no smaller positive one |
| PrefixFunction.Repeat | lab11/src/prefix_function.py:94-95 | q copies of a block have q times its length |
| PrefixFunction.PeriodRepeats | lab11/src/prefix_function.py:94-95 | a string of length q * d with period d is its first d characters repeated q times |
| PrefixFunction.PeriodDivides | lab11/src/prefix_function.py:94-95 | a period dividing the length makes the string its first block repeated |
| PrefixFunction.CandidatePeriod | lab11/src/prefix_function.py:92 | n - pi[n - 1] is the smallest period |
| PrefixFunction.FindPeriodUsingPrefix | lab11/src/prefix_function.py:74-97 | (0, False) for the empty string; True exactly when the smallest period divides the length, then that period with the string as its block repeated; a string with no border counts as periodic with period n |
| KmpSearch.MatchesBelow | lab11/src/kmp_search.py:121-128 | exactly the match positions below `k`, in increasing order |
| KmpSearch.Occurrences | lab11/src/kmp_search.py:18-19 | exactly the positions where the pattern occurs, overlaps included, in increasing order |
| KmpSearch.MatchesTail | lab11/src/kmp_search.py:121 | no match starts past n - m, so trying starts up to n - m finds them all |
| KmpSearch.EmptyPattern | lab11/src/kmp_search.py:30-31 | the empty pattern occurs at every index 0 .. n |
| KmpSearch.EmptyBelow | lab11/src/kmp_search.py:30-31 | the empty pattern matches at every position below `k` |
| KmpSearch.LongPattern | lab11/src/kmp_search.py:34-35 | a pattern longer than the text occurs nowhere |
| KmpSearch.MatchHere | lab11/src/kmp_search.py:122-126 | the inner loop reports True exactly when the pattern occurs at `i` |
| KmpSearch.NaiveSearch | lab11/src/kmp_search.py:100-130 | exactly the occurrences, in increasing order, the empty pattern included |
| KmpSearch.FallBack | lab11/src/kmp_search.py:45-46 | below a matched prefix `j`, the shorter prefixes ending the text read are the borders of pattern[0..j) |
| KmpSearch.EndsWithStep | lab11/src/kmp_search.py:49-50 | reading one character extends a matched prefix exactly when the next pattern character agrees |
| KmpSearch.Extend | lab11/src/kmp_search.py:45-50 | once the fall-backs stop, one comparison gives the longest prefix ending the text read |
| KmpSearch.Advance | lab11/src/kmp_search.py:45-50 | the fall-back loop and the comparison keep `j` the longest prefix of the pattern ending text[0..i] |
| KmpSearch.Restart | lab11/src/kmp_search.py:53-55 | after a full match, restarting from pi[m - 1] keeps `j` the longest proper prefix ending the text read |
| KmpSearch.MatchEnds | lab11/src/kmp_search.py:53-54 | a match at e - m is the same as the whole pattern ending text[0..e) |
| KmpSearch.ReadChar | lab11/src/kmp_search.py:43-55 | one character read keeps the invariant: `j` is the longest proper prefix match and every match ending so far is recorded |
| KmpSearch.KmpSearch | lab11/src/kmp_search.py:10-57 | exactly the occurrences, in increasing order; every index for the empty pattern, none for a longer one |
| KmpSearch.NoMatch | lab11/src/kmp_search.py:124-126 | one differing character rules a start position out |
| KmpSearch.NoneBelow | lab11/src/kmp_search.py:121-128 | with no match below `k` nothing is listed |
| KmpSearch.AbabdSample | lab11/src/kmp_search.py:25-28 | the documented example: "ababd" occurs in "ababcabcabababd" only at 10 |
| KmpSearch.AbabdNoEarlyMatch | lab11/src/kmp_search.py:25-28 | the documented example has no match below 10 |
| KmpSearch.CompareKmpNaive | lab11/src/kmp_search.py:133-167 | both searches return the occurrences, so `correct` is always True |
| KmpSearch.UnbracketedAppend | lab11/src/kmp_search.py:96 | removing brackets commutes with joining pieces |
| KmpSearch.UnbracketedPlain | lab11/src/kmp_search.py:85-94 | a text without brackets is unchanged by removing them |
| KmpSearch.Bracketed | lab11/src/kmp_search.py:89 | a bracketed plain piece reads back as the piece and opens one bracket |
| KmpSearch.MarkedPlain | lab11/src/kmp_search.py:85-89 | the gap and the bracketed match read back as the text they cover |
| KmpSearch.MarkedOpensOne | lab11/src/kmp_search.py:85-89 | each marked match opens exactly one bracket |
| KmpSearch.HighlightedKeepsText | lab11/src/kmp_search.py:78-96 | with non-overlapping matches in a text without brackets, removing the brackets gives back the text |
| KmpSearch.OpenedPlain | lab11/src/kmp_search.py:85-94 | plain text opens no bracket |
| KmpSearch.HighlightedMarksEach | lab11/src/kmp_search.py:78-96 | in a text without brackets the highlighted text opens one bracket per match |
| KmpSearch.OverlapRepeats | lab11/src/kmp_search.py:81-90 | overlapping matches repeat the shared characters: "aa" in "aaa" gives "[aa][aa]" |
| KmpSearch.OverlapMatches | lab11/src/kmp_search.py:10-57 | "aa" occurs in "aaa" at 0 and 1 |
| KmpSearch.KmpSearchWithHighlight | lab11/src/kmp_search.py:60-97 | the occurrences; the text unchanged with no match; otherwise every match bracketed, one bracket per match, and the text read back when the matches do not overlap |
| KmpSearch.HighlightedStep | lab11/src/kmp_search.py:81-90 | highlighting from the k-th start marks that start, then carries on after its end |
| KmpSearch.Highlight | lab11/src/kmp_search.py:78-96 | the loop and the join give the highlighted text |
| KmpSearch.MarkStep | lab11/src/kmp_search.py:81-90 | one pass keeps the invariant and moves `prev_end` past the match |
| KmpSearch.MarkNext | lab11/src/kmp_search.py:85-89 | the gap before the match, if any, then the bracketed match are appended to the joined text |
| KmpSearch.Append | lab11/src/kmp_search.py:86-94 | `append` adds the piece to the end of the joined text |

## Copies

Several benchmark and test files embed near-verbatim copies of the canonical
code. Each copy is modelled once, by the canonical member it matches. Where a
copy differs, the difference has a member of its own, listed above.

- `lab02/src/perfomance_analysis.py:7-79` and `lab02/src/task_solutions.py:5-77`
  (`LinkedList`): `insert_at_start`, `insert_at_end`, `delete_from_start`,
  `traversal`, `is_empty` and `size` are `LinkedList.SinglyLinkedList.Prepend`,
  `Append`, `PopFront`, `ToList`, `Empty` and `Length`; the demonstration at
  `task_solutions.py:144-166` is `LinkedList.Showcase`.
- `lab04/src/plot_results.py:19-105` and `lab04/src/perfomance_test.py:16-122`
  (the five sorts, `_merge`/`_merge_sorted_sequences` with `<=`, and
  `is_sorted`): `Sorts.BubbleSort`, `Sorts.SelectionSort`, `Sorts.InsertionSort`,
  `Sorts.MergeSort`, `Sorts.Merge`, `Sorts.QuickSort` and `Sorts.IsSorted`. The
  `perfomance_test.py` `is_sorted` returns at the first descent, and that scan
  is `Sorts.IsSortedScan`.
- `lab04/src/plot_results.py:106-133` and `lab04/src/perfomance_test.py:123-158`
  (the generators): `TestData.CreateAscendingIntegerSequence`,
  `TestData.CreateDescendingIntegerSequence`,
  `TestData.CreateRandomIntegerSequence` and
  `TestData.CreateNearlySortedSequence`. `generate_almost_sorted_array` computes
  its swap count differently, and that version is
  `TestData.GenerateAlmostSortedArray`.
- `lab05/src/performance_hash.py:14-27` and
  `lab05/src/performance_analysis.py:14-27` (the character-sum and polynomial
  hashes): `HashFunctions.CharacterSumHash` and `HashFunctions.PolynomialHash`.
  Their DJB2 (`performance_hash.py:30-35`, `performance_analysis.py:30-35`) is
  not masked to 32 bits: `HashFunctions.Djb2UnmaskedHash` and
  `HashFunctions.ComputeDjb2Hash`.
- `lab05/src/performance_hash.py:40-113` (`HashTableWithChaining`) and
  `lab05/src/performance_analysis.py:40-100` (`ChainingHashTable`): `insert`/
  `add_element`, `_expand_table`, `search`/`find_element`, `delete`/
  `remove_element`, `get_load_factor` and `get_collision_stats` are
  `Chaining.HashTableWithChaining.AddEntry`, `PerformResizeOperation`,
  `RetrieveValue`, `RemoveEntry`, `CurrentLoadFactor` and
  `AnalyzeCollisionStatistics`, constructed with a hash function passed in.
- `lab05/src/performance_hash.py:116-222` (`HashTableOpenAddressing`) and
  `lab05/src/performance_analysis.py:103-187` (`OpenAddressingHashTable`):
  `OpenAddressing.OpenAddressingHashTable.Copy` builds the table. `insert`/
  `add_element` is `OpenAddressing.OpenAddressingHashTable.Insert`: the load
  check runs on every insert, including the re-inserts of an expansion.
  `search`/`find_element`, `delete`/`remove_element`, `get_load_factor` and
  `get_probe_stats` are `FindElement`, `RemoveElement`, `ComputeCurrentLoad`
  and `AnalyzeProbingStatistics`. Their double probing takes the table's own
  hash as the base and `1 + simple_hash(key, capacity - 2)` as the step, which
  is the `Probing.Prober` built by `Copy`.
- `lab05/src/test_hash_tables.py:15-33` (the local hashes): the character sum
  is `HashTableTests.CharSumIndex`; the polynomial and DJB2 hashes are
  `HashFunctions.PolynomialHash` and `HashFunctions.Djb2Hash`.
- `lab06/src/test_bst.py:11-188` (`BinarySearchTree`): `add_element`,
  `contains`, `remove`, `find_min`, `find_max`, `is_valid`, `size` and
  `to_list_inorder` are `BinarySearchTrees.BinarySearchTree.Insert`, `Search`,
  `Delete`, `FindMin`, `FindMax`, `IsValidBst`, `Size` and `ToListInorder`.
  Its `height()` is -1 for an empty tree, and that height is
  `BinarySearchTrees.HeightOf`.
- `lab06/src/test_bst.py:191-275` (`TreeTraversal`): the `TreeTraversals`
  members of the same names.
- `lab07/src/benchmark.py:15-102` (`MinHeapStructure`): `Heaps.Heap` in
  min-heap mode with the identity key. `add_element`, `extract_minimum`,
  `construct_from_array` and `verify_heap_property` are `Heaps.Heap.Push`,
  `Heaps.Heap.Pop`, `Heaps.Heap.CreateFrom` and `Heaps.Heap.Validate`.
  `perform_heap_sort` (`benchmark.py:105-114`) is `Heaps.HeapSortWithClass`.
  `execute_quicksort` (`benchmark.py:305-315`) is `Sorts.QuickSort`. The
  recursive `_heapify`, `execute_mergesort` and the merge that takes the right
  element on a tie have members of their own in `HeapBenchmark`.
- `lab07/src/visualize.py:135-183` (`SimpleMinHeap`): `add` and `remove_min`
  are `Heaps.Heap.Push` and `Heaps.Heap.Pop` of a min-heap with the identity
  key.

## Left out

- Plotting, timing, CSV export, printing and interactive menus, and the
  benchmark and analysis drivers (`analysis.py`, `comparison.py`, the
  `measure_*`, `evaluate_*` and `benchmark_*` functions). They measure and
  display and compute nothing the model could state.
- `print_matrix`, `print_list`, `visualize_prefix_function`,
  `print_traversals`, `display_heap_tree` and `simulate_printing_queue`: they
  only print.
- The `random` module: random choices are a `draw` function parameter
  (`TestData`), so every property holds for every sequence of draws.
- `fractional_knapsack`: it works in floating point.
- The `heapq` fallback and `FastPriorityQueue` of the priority queue: thin
  wrappers over a library that is not part of this model.
- The test harness of `lab07/src/test_heap.py`: its `hasattr` probing and
  import fallbacks are plumbing. Its expectations are stated as lemmas about
  the heap.
- `__len__`, `__bool__`, `__setitem__`, `__str__` and `__repr__`: aliases of
  modelled methods, or printing. The hash tables' `__contains__` and
  `__getitem__` are modelled, as `Chaining.HashTableWithChaining.ContainsKey`,
  `Chaining.HashTableWithChaining.GetItem`,
  `OpenAddressing.OpenAddressingHashTable.ContainsKey` and
  `OpenAddressing.OpenAddressingHashTable.GetItem`.
- Python's `RecursionError`, raised when recursion exceeds the interpreter's
  depth limit (1000 frames by default), is not modelled. Each recursive member
  below is stated for every input, as if the stack were unbounded:
- Recursion.ComputeFactorial: no RecursionError for large `n`.
- Recursion.GenerateFibonacciNumber: no RecursionError for large `n`.
- Recursion.ExponentiateNumber: no RecursionError (its depth is logarithmic in the exponent).
- Memoization.FibonacciCache.ComputeFibonacciCached: no RecursionError for a large first call.
- Memoization.RecursionTracker.ComputeFibonacciTracked: no RecursionError for large `n`.
- RecursionTasks.RecursiveBinaryLookup: no RecursionError (its depth is logarithmic).
- RecursionTasks.GenerateTowerOfHanoiSolution: no RecursionError for many disks.
- Sorts.MergeSort: no RecursionError for long lists.
- Sorts.QuickSort: no RecursionError, which Python raises when the partitions stay lopsided.
- BinarySearchTrees.BinarySearchTree.Search: no RecursionError on a degenerate (list-shaped) tree.
- BinarySearchTrees.BinarySearchTree.Delete: no RecursionError on a degenerate tree.
- BinarySearchTrees.BinarySearchTree.IsValidBst: no RecursionError on a degenerate tree.
- BinarySearchTrees.BinarySearchTree.Height: no RecursionError on a degenerate tree.
- BinarySearchTrees.BinarySearchTree.Size: no RecursionError on a degenerate tree.
- BinarySearchTrees.BinarySearchTree.ToListInorder: no RecursionError on a degenerate tree.
- TreeTraversals.InorderRecursive: no RecursionError on a degenerate tree.
- TreeTraversals.PreorderRecursive: no RecursionError on a degenerate tree.
- TreeTraversals.PostorderRecursive: no RecursionError on a degenerate tree.
- HeapBenchmark.Heapify: no RecursionError (its depth is logarithmic).
- HeapBenchmark.ExecuteMergeSort: no RecursionError for long lists.
- HeapDiagrams.Render: no RecursionError (its depth is logarithmic in the heap size).
- GraphTraversal.DfsRecursive: no RecursionError on a long path of more than about 1000 vertices.
- GraphTraversal.DfsWithTimestamps: no RecursionError on a long path.
- OpenAddressing.OpenAddressingHashTable.constructor: requires a configuration whose probe works (`Probing.Sound`). Python builds any table and raises on the first probe: ValueError for an unknown strategy, NameError for double hashing with a custom primary hash, ZeroDivisionError at capacity 2 (the step is taken mod capacity - 2) or at capacity 0. The failing probe itself is modelled (`Probing.Probe`, `Probing.ProbeErrors`); the table over such a configuration is not.
- OpenAddressing.OpenAddressingHashTable.Copy: the same requirement for the copies in `performance_hash.py` and `performance_analysis.py`. A capacity below 1, an unknown strategy, or double probing at capacity 2 (`simple_hash(key, 0)` divides by zero) is excluded, though Python raises only on the first insert.
- Chaining.HashTableWithChaining.constructor: requires a capacity of at least 1 and a custom hash that stays in `[0, capacity)`. Python accepts both and fails later: ZeroDivisionError or IndexError at capacity 0 or below, and IndexError (or a silent wrap-around to a bucket counted from the end, for a small negative index) from an out-of-range custom hash.
- HashTableTests.LocalHashTable.constructor: requires a capacity of at least 1; Python raises ZeroDivisionError on the first insert at capacity 0.
- HashTableTests.ScalableTable.constructor: requires a capacity of at least 1; Python raises ZeroDivisionError on the first insert at capacity 0.
- Recursion.ExponentiateNumber: over integers. Python accepts a float base and returns a float, so rounding and non-integer bases are not modelled.
- TestData.SwapsRequired: the swap percentage is an integer and `int(n * p / 100)` is integer division. A fractional percentage, and the rounding of the float product, are not modelled.
- TestData.AlmostSortedSwaps: the same integer percentage as `SwapsRequired`.
- TestData.CreateNearlySortedSequence: the same integer percentage as `SwapsRequired`.
- TestData.GenerateAlmostSortedArray: the same integer percentage as `SwapsRequired`.
- Sorts.BubbleSort: sorts integers. Python sorts any list whose elements `<` and `<=` compare, such as strings, floats or tuples.
- Sorts.SelectionSort: sorts integers, not any comparable elements.
- Sorts.InsertionSort: sorts integers, not any comparable elements.
- Sorts.QuickSort: sorts integers, not any comparable elements. `Sorts.MergeSort` is generic over the element, with an integer key.
- HeapSorts.HeapSortInPlace: sorts integers, not any comparable elements.
- HeapSorts.HeapSortExtra: sorts integers, not any comparable elements.
- Heaps.Heap: elements are compared through an integer rank (`key`), not Python's `<` and `>` on arbitrary objects. The min-heap ranks by the key and the max-heap by its negation, so ties behave as in Python's strict comparisons.
- Heaps.HeapSortWithClass: sorts integers through the heap's rank, and the ImportError fallback path of `heap_sort_with_class` (used when the heap module cannot be imported) is not modelled.
- Scheduling.IntervalScheduling: interval endpoints are integers. Python also accepts floats; the `float('inf')` sentinel is an `Option`.
- Scheduling.IntervalSchedulingCorrected: integer endpoints, as for `IntervalScheduling`.
- DynamicProgramming.FillTable: weights and values are integers. Python would accept floats for values (and fail on float weights used as indices).
- DynamicProgramming.Knapsack01BottomUp: integer weights and values only; Python would also accept float values. A negative weight ends in IndexError as in Python, where the round `w = capacity` indexes past the row.
- DynamicProgramming.KnapsackWithReconstruction: integer weights and values only; a negative weight ends in IndexError as in Python.
- DynamicProgramming.Knapsack01Corrected: integer weights and values only; a negative weight ends in IndexError, as in the as-written version.
- OpenAddressing.OpenAddressingHashTable.ComputeCurrentLoad: the load factor is an exact `real`. Python divides in binary floating point, which can round a comparison at the threshold the other way.
- OpenAddressing.OpenAddressingHashTable.AddElement: compares the exact load with `maxLoadFactor`, not the float quotient.
- OpenAddressing.OpenAddressingHashTable.Insert: compares the exact load with `maxLoadFactor`, not the float quotient.
- Chaining.HashTableWithChaining.CurrentLoadFactor: an exact `real`, not a float.
- Chaining.HashTableWithChaining.AddEntry: compares the exact load with `maxLoadFactor`, not the float quotient.
- HashTableTests.ScalableTable.AddElement: compares the exact load with the threshold, not the float quotient.
- BinarySearchTrees.BinarySearchTree.FindMin: returns an `Option` of the smallest value, not the node itself. Node identity, and a caller mutating the returned node, are not modelled.
- BinarySearchTrees.BinarySearchTree.FindMax: returns an `Option` of the largest value, not the node.
- StackTasks.CheckPalindromeSequence: `str.lower()` is a function parameter `lower`, because Unicode case mapping is not modelled. Removing whitespace and comparing the ends are modelled.
- PriorityQueues.HeapPriorityQueue.Iterate: the test at `priority_queue.py:359-365` asserts only the length 3. The model also states the order Y, X, Z, which follows from iteration in priority order.
- `ScalableTable` never rehashes its entries when it doubles; this is modelled as written (`HashTableTests.MissingBucketFails`), not repaired.

## Findings

| source | as written | input that shows it | evidently intended | confidence | as-written member | corrected member |
|---|---|---|---|---|---|---|
| lab05/src/hash_table_open_addressing.py:87-106 | `_insert_entry` writes into the first empty, tombstone or same-key slot | insert a and b that collide, remove a, then insert b again: b lands in a's tombstone while the old b stays further along the probe sequence, so the table holds b twice | an insert that reuses a tombstone first checks the rest of the probe sequence for the key | high (not executed) | OpenAddressing.TombstoneDuplicates | Probing.CorrectedInsert |
| lab05/src/hash_functions.py:94-98 | the secondary step is `1 + charsum mod (capacity - 2)` and the comment calls it always odd | key "a" at capacity 10: 1 + 97 mod 8 = 2, an even step | an odd step, so that an even capacity is not probed on one parity class only | high (not executed) | HashFunctions.SecondaryStepCanBeEven | HashFunctions.OddSecondaryStep |
| lab07/src/priority_queue.py:229-251 | `contains` searches only when the queue runs on `heapq`; on the heap-module path its branch is `pass`, so it returns False | on the heap-module path, add ("A", 5), then `contains("A")` and `contains("A", 5)` both return False | True exactly when a stored node carries the item (and the priority, when one is given) | high (not executed) | PriorityQueues.HeapPriorityQueue.ContainsMissesStored | PriorityQueues.HeapPriorityQueue.ContainsCorrected |
| lab08/src/greedy_algorithms.py:25-34 | the intervals are sorted by end time only, and the scan keeps the first interval of each tie | [(3, 3), (1, 3)] selects only (3, 3), while (1, 3) and (3, 3) are compatible | ties on the end broken by the start, so the result is a maximum set | high (not executed) | Scheduling.TieDropsEmptyInterval | Scheduling.IntervalSchedulingCorrected |
| lab09/src/dynamic_programming.py:86 | the capacity loop starts at w = 1, so column 0 never takes an item | values [5, 10], weights [0, 3], capacity 3 gives 10, while both items fit for 15 | the loop from w = 0, so zero-weight items count | high (not executed) | DynamicProgramming.ZeroWeightMissed | DynamicProgramming.Knapsack01Corrected |
| lab10/src/graph_representation.py:92-101 | the matrix edge count halves the non-zero entries when undirected, and a self-loop has one entry | an undirected one-vertex graph with `add_edge(0, 0)`: the matrix counts 0 edges, the adjacency list 1 | a diagonal entry counted as one edge, so every added edge adds one (proved as `GraphRepresentation.EdgeAddedCorrected`) | high (not executed) | GraphRepresentation.SelfLoopCounts | GraphRepresentation.AdjacencyMatrix.GetEdgeCountCorrected |

The model follows the code as written everywhere else; the corrected members
exist beside it and carry the intended property.
