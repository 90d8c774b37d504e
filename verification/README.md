# Verification of the library's core

A Dafny model of the parts of the library whose state or arithmetic no finite set of tests can settle, with proofs.
`dafny verify dfyconfig.toml` checks everything.

## What is modelled

* **Linear algebra and polynomial fitting.** `Matrix.dfy` and `Givens.dfy` are the flat row-major matrix and the Givens
  decomposition with its back substitution, over the real numbers, updated in place as in the source. `LinAlg.dfy`,
  `QrTheory.dfy` and `Polynomial.dfy` hold the mathematics, `Polyfit.dfy` the fit. The square root is a parameter of
  which only `f(x) >= 0` and `f(x)*f(x) == x` for non-negative x are used.
* **Queue and LRU cache.** `TSQueue.dfy` is the linked list with its owning and weak pointers; every node carries its
  use count, so that whether a weak pointer locks is a consequence and not an assumption. `LruCache.dfy` is the cache on
  top of it, `LruSpec.dfy` what it does to the list of its entries, `LruRuns.dfy` whole runs.
* **Reader/writer lock and map.** `SharedMutex.dfy` is the lock as a machine whose steps are single accesses to its
  two locks and its count, for any number of threads. `TSMap.dfy` is the map wrapper for one thread;
  `TSMapConcurrent.dfy` puts its sections, split into single container accesses, on top of the lock.
* **Job manager and thread pool.** `TaskManager.dfy` and `ThreadPool.dfy` are step machines over any number of callers,
  keys, workers and jobs. A run is any sequence of steps; what is proved holds after every run.
* **Times and timeouts.** `Timeval.dfy` and `NointSelect.dfy`: signed times in two fields, and the restarted `select`,
  with the answers of `select` and the readings of the clock given from outside.
* **String splitting.** `StringParser.dfy`.

## Where the code does not do what one might expect

* A cleanup handler that refuses the only entry makes `LruCache` link that entry to itself: the cache holds it through
  `temp`, so the weak tail still locks. The list is lost; a following insertion answers true and yet nothing can be
  looked up. `LruSpec.LostIffOneLeft` says when for every handler, `LruSpec.OrphanIff` when for a handler whose answer
  depends on the entry alone, and `LruCacheModel.LruCache.AddToCache` what is left. `empty_cache` does not repair it.
* `add_to_cache` evicts before it notices that the key is present: without a handler exactly when the cache is full
  (`LruRuns.DuplicateIsRefusedIff`), with one exactly when it is full and not just five refused entries are turned round
  (`LruRuns.UnchangedWithHandlerIff`). A limit of zero works as a limit of one.
* `TSMap::emplace` is documented to answer whether an element existed before. It does so exactly if none did or if force
  was withheld (`TSMapModel.TSMap.Emplace`).
* `TimevalSum` carries once. Sums of unnormalised times can stay unnormalised, and `noint_select` then misjudges its stop
  time exactly for timeouts of more than a million microseconds (`NointSelectModel.StopIsExactIff`). The comparisons
  of times are right exactly for normal forms (`TimevalModel.ComparisonsAgreeIff`).
* `stringParser` keeps the start of a piece in 32 bits and does not end on an empty delimiter
  (`StringParserModel.ExactIff`, `StringParserModel.HaltsIff`).
* An empty thread-pool queue means that the jobs are done exactly when no worker has one in hand
  (`ThreadPoolModel.EmptyIsDoneIff`).

## Model

| member | source | states |
|---|---|---|
| `MatrixModel.Matrix.constructor` | Math/matrix.hpp:16-25 | a new matrix has its shape and a buffer of zeros |
| `MatrixModel.Matrix.Make` | Math/matrix.hpp:16-25 | construction fails with a range error exactly when a dimension is zero |
| `MatrixModel.IndexInjective` | Math/matrix.hpp:45 | different positions have different places in the flat buffer |
| `MatrixModel.DiagonalByCounter` | Math/matrix.hpp:31-33 | a running counter is divisible by n+1 exactly on the diagonal |
| `MatrixModel.Matrix.Eye` | Math/matrix.hpp:27-36 | the counter loop yields the identity matrix |
| `MatrixModel.Matrix.TryGet` | Math/matrix.hpp:38-46 | the access operator for reading: the entry, or an out-of-range error exactly outside the matrix |
| `MatrixModel.Matrix.TrySet` | Math/matrix.hpp:38-46 | the access operator for writing: that entry changes, or outside the matrix nothing does |
| `MatrixModel.Matrix.Clone` | Math/givensQR.hpp:54 | assignment copies the matrix into a buffer of its own |
| `MatrixModel.Matrix.Multiply` | Math/matrix.hpp:48-68 | the accumulating loops give the matrix product; a domain error exactly when the shapes do not fit |
| `MatrixModel.Matrix.MultiplyInto` | Math/matrix.hpp:55-65 | every entry of a zero matrix becomes the full inner product |
| `MatrixModel.Matrix.Transposed` | Math/matrix.hpp:70-81 | the result is the transpose |
| `GivensModel.Givens.constructor` | Math/givensQR.hpp:14-16 | a new decomposition is in a valid state |
| `GivensModel.Givens.GivensRotation` | Math/givensQR.hpp:106-133 | in all four branches the stored pair has c*c+s*s=1 and turns (a, b) so that its second coordinate is zero, and which of the two such pairs it is |
| `GivensModel.Givens.PreMultiplyGivens` | Math/givensQR.hpp:139-149 | in place, the rows i and j are rotated and every other row stays |
| `QrTheory.RotateKeepsFactors` | Math/givensQR.hpp:56-64 | applying one rotation to R and to the accumulated factor keeps their product equal to the input and the factor orthonormal |
| `QrTheory.RotateClears` | Math/givensQR.hpp:60-62 | the rotation clears its target and keeps every zero made before |
| `GivensModel.Givens.ClearEntry` | Math/givensQR.hpp:60-62 | one pass of the inner loop clears one more entry and keeps the factorisation |
| `GivensModel.Givens.ClearColumns` | Math/givensQR.hpp:56-64 | the two loops clear everything below the diagonal of the columns they visit |
| `GivensModel.Givens.Decompose` | Math/givensQR.hpp:38-67 | for every shape, square, tall or wide: Q*R is the input, Q is orthonormal and R upper triangular |
| `QrTheory.FactorsGiveQR` | Math/givensQR.hpp:66 | transposing the accumulated factor at the end turns it into the Q of a QR factorisation |
| `QrTheory.QRIsOrthogonal` | Math/givensQR.hpp:38-67 | the rows and the columns of Q are orthonormal: Q*Q^T and Q^T*Q are both the identity |
| `GivensModel.Givens.Solve` | Math/givensQR.hpp:73-89 | solves R*x = Q^T*b in its first cols rows; exactly when it fails with a domain error, an out-of-range error or a division by zero |
| `GivensModel.Givens.Substitute` | Math/givensQR.hpp:78-86 | the downward loop solves row after row; it divides by zero exactly when a diagonal entry of R is zero |
| `GivensModel.Givens.SolveRow` | Math/givensQR.hpp:80-85 | one row of the substitution, and when it divides by zero |
| `QrTheory.TriangleUnique` | Math/givensQR.hpp:78-86 | with a nonzero diagonal the triangle has one solution only |
| `QrTheory.TriangleGivesNormalEquations` | Math/givensQR.hpp:69-89 | what Solve returns satisfies A^T*(A*x-b) = 0 |
| `QrTheory.TriangleSolvesSquare` | Math/givensQR.hpp:69-89 | for a square A it satisfies A*x = b |
| `QrTheory.SolutionIsLeastSquares` | Math/givensQR.hpp:69-89 | for a tall A no other vector leaves a smaller squared residual |
| `QrTheory.ZeroDiagonalHasKernel` | Math/givensQR.hpp:85 | a zero on the diagonal of R means a non-trivial kernel |
| `LinAlg.Pythagoras` | Math/polyfit.tcc:9-11 | under the normal equations the squared residual of any vector is that of the solution plus the squared distance between their images |
| `LinAlg.LeastSquares` | Math/polyfit.tcc:9-11 | hence the solution of the normal equations minimises the squared residual |
| `Polynomial.SumOfPowers` | Math/polyfit.tcc:90-100 | summing coefficients times running powers is the evaluation of the polynomial |
| `Polynomial.Division` | Math/polyfit.tcc:44-52 | a polynomial is (x-a) times its quotient plus its value at a |
| `Polynomial.RootBound` | Math/polyfit.tcc:44-52 | a polynomial with n coefficients that vanishes at n distinct points is zero |
| `Polynomial.RootsExist` | Math/polyfit.tcc:44-52 | over fewer points there is a non-zero polynomial that vanishes at all of them |
| `PolyfitModel.DiagonalByPoints` | Math/polyfit.tcc:54-63 | the R of the normal equations has a nonzero diagonal if and only if there are at least n distinct points |
| `PolyfitModel.NormalEquationsGiveBestFit` | Math/polyfit.tcc:54-63 | over enough points the solution of the normal equations is strictly better than every other coefficient vector |
| `PolyfitModel.FitInvertsEvaluation` | Math/polyfit.tcc:9-11 | whatever fits the values of a polynomial best is that polynomial |
| `PolyfitModel.FillColumn` | Math/polyfit.tcc:37-41 | the column matrix holds the data |
| `PolyfitModel.FillPowers` | Math/polyfit.tcc:43-52 | the design matrix holds the powers of the points |
| `PolyfitModel.SolveNormalEquations` | Math/polyfit.tcc:54-65 | the chain transpose, product, decompose, solve gives the best fit, and divides by zero exactly over too few distinct points |
| `PolyfitModel.Polyfit` | Math/polyfit.tcc:25-66 | the best fit by a polynomial of the degree, and exactly when each of the three failures occurs |
| `PolyfitModel.Polyval` | Math/polyfit.tcc:82-104 | the value of the polynomial at every point |
| `PolyfitModel.FitOfValues` | Math/polyfit.tcc:24-104 | polyfit of the values polyval gives returns the polynomial, and succeeds exactly when there are as many distinct points as coefficients |
| `QueueModel.Release` | DataTypes/TSQueue.tcc:79-80 | dropping the last owner of a node destroys the chain it owns, and stops at the first node owned elsewhere |
| `QueueModel.TSQueue.TailLocks` | DataTypes/TSQueue.tcc:116-121 | the weak tail locks exactly when the queue is not empty |
| `QueueModel.TSQueue.EnqueueNode` | DataTypes/TSQueue.tcc:112-125 | a node is linked behind the tail; a tail that is the node itself makes the node its own neighbour and loses the list |
| `QueueModel.TSQueue.EnqueueAndLetGo` | DataTypes/TSQueue.tcc:112-145 | the same with the pointer of the caller gone afterwards: appended, lost, or freed together with a tail that owned itself |
| `QueueModel.TSQueue.Enqueue` | DataTypes/TSQueue.tcc:133-145 | appends, and is refused exactly when unforced on a full queue |
| `QueueModel.TSQueue.Dequeue` | DataTypes/TSQueue.tcc:153-169 | removes and returns the front; fails exactly on an empty queue |
| `QueueModel.TSQueue.DropHead` | DataTypes/TSQueue.tcc:161-162 | moving the head destroys the old head; every other node keeps its one owner |
| `QueueModel.TSQueue.Push` | DataTypes/TSQueue.tcc:203-224 | prepends, and is refused exactly when unforced on a full queue |
| `QueueModel.TSQueue.Peek` | DataTypes/TSQueue.tcc:243-253 | returns the front and changes nothing |
| `QueueModel.TSQueue.Size` | DataTypes/TSQueue.tcc:260-263 | length is the number of elements |
| `QueueModel.TSQueue.SetMaxSize` | DataTypes/TSQueue.tcc:271-275 | a lower limit removes nothing |
| `QueueModel.TSQueue.DeleteAll` | DataTypes/TSQueue.tcc:99-105 | every node is destroyed and the queue is empty; a tail that owns itself stays alive |
| `OrderedKeys.LowerBound` | DataTypes/LruCache.tcc:144-162 | the smallest key not below the one asked for, or the end |
| `LruCacheModel.LruCache.KeysOfIndex` | DataTypes/LruCache.tcc:57 | the list has distinct keys; with the stale ones, which name destroyed nodes, they are the keys of the index |
| `LruCacheModel.LruCache.LiveWhenValid` | DataTypes/LruCache.tcc:109-123 | in a sound cache every indexed node is alive, so the error branches are not reached |
| `LruCacheModel.LruCache.LiveWhenIntact` | DataTypes/LruCache.tcc:103-166 | in an intact one exactly the nodes of stale keys are dead |
| `LruCacheModel.LruCache.constructor` | DataTypes/TSQueue.tcc:86 | a new cache is sound and empty |
| `LruCacheModel.LruCache.EmptyCache` | DataTypes/LruCache.tcc:73-79 | list and index are emptied together and every trace of lost entries is gone, unless the tail keeps itself alive |
| `LruCacheModel.LruCache.SetMaxSize` | DataTypes/TSQueue.tcc:271-275 | only the limit changes |
| `LruCacheModel.LruCache.SetCleanupHandler` | DataTypes/LruCache.tcc:88-92 | only the handler changes |
| `LruCacheModel.LruCache.PushToBack` | DataTypes/LruCache.tcc:268-295 | a linked node moves behind all others, which keep their order; false exactly for the last node |
| `LruCacheModel.LruCache.GetValue` | DataTypes/LruCache.tcc:102-129 | a hit returns the stored value and makes the entry the most recent; a stale key is forgotten; after the list was lost, the one live entry is found once and then dead |
| `LruCacheModel.LruCache.GetLowerBound` | DataTypes/LruCache.tcc:139-166 | uses the smallest key of the index that is not below the one asked for; if that key is stale it answers false and forgets the key asked for |
| `LruCacheModel.LruCache.ReadFound` | DataTypes/LruCache.tcc:109-128 | what both do with a key found in the index: a live node is read and moved to the back, a destroyed one costs the key asked for its place in the index |
| `LruCacheModel.LruCache.TakeHead` | DataTypes/LruCache.tcc:191-199 | the head leaves the list and is held by the caller alone |
| `LruCacheModel.LruCache.EvictHead` | DataTypes/LruCache.tcc:186-234 | one pass: the first entry is removed, or put behind the others when the handler refuses, or takes the list with it when it was alone; what was counted too much or stale before stays so |
| `LruCacheModel.LruCache.Resubmit` | DataTypes/LruCache.tcc:221-231 | a refused entry is indexed again and appended; alone, it is linked to itself |
| `LruCacheModel.LruCache.EvictOnce` | DataTypes/LruCache.tcc:185-234 | the body of the loop: the loop that is left makes of the rest what the whole loop makes of the list, or the list is lost |
| `LruCacheModel.LruCache.MakeRoom` | DataTypes/LruCache.tcc:183-234 | the loop ends and does to the list what the eviction of the entries says, with a limit reduced by the entries counted too much, and never more than makes room for one; it does nothing to a cache that lost its list |
| `LruCacheModel.LruCache.Insert` | DataTypes/LruCache.tcc:236-256 | the new entry is appended unless its key is in the index; after a lost list it dies with the lost node |
| `LruCacheModel.LruCache.AddToCache` | DataTypes/LruCache.tcc:178-257 | the whole operation from every state the cache can be in: contents, count, stale keys and answer, that no more is evicted than makes room for one entry, and exactly what is left when the list is lost |
| `LruCacheModel.AddThenGet` | DataTypes/LruCache.tcc:178-257 | an entry added with a true answer is found again if and only if there was a list and the eviction did not lose it |
| `LruCacheModel.AddIsStep` | DataTypes/LruCache.tcc:178-257 | without a handler an insertion is the step of which the runs below are made |
| `LruSpec.EvictWithoutHandler` | DataTypes/LruCache.tcc:185-199 | without a handler just enough of the oldest entries go: all stay while there is room, otherwise the latest, one fewer than the limit |
| `LruSpec.EvictConserves` | DataTypes/LruCache.tcc:185-234 | what was there is what is left and what was removed |
| `LruSpec.EvictGoesAlong` | DataTypes/LruCache.tcc:183-234 | for every handler and any number of rounds: the loop asks along the list followed by what it refused; removed is what was accepted, and the refused entries are behind the rest in order |
| `LruSpec.EvictAsksWhileFull` | DataTypes/LruCache.tcc:185 | for every handler: it is asked only while the list, without what was accepted so far, is still full, and while there were fewer than five refusals |
| `LruSpec.EvictLeavesRoomOnly` | DataTypes/LruCache.tcc:185-199 | nothing is evicted beyond what makes room for one entry, whatever the handler answers |
| `LruSpec.EvictBound` | DataTypes/LruCache.tcc:185 | the loop leaves a full cache only after five refusals |
| `LruSpec.EvictKeepsDistinct` | DataTypes/LruCache.tcc:200-225 | eviction and resubmission keep the keys distinct |
| `LruSpec.EvictRotates` | DataTypes/LruCache.tcc:221-231 | a handler that never agrees is asked five times, and the list is turned by five places |
| `LruSpec.LostIffOneLeft` | DataTypes/LruCache.tcc:183-234 | for every handler: never with a limit of two or more or without a handler; with a smaller limit if and only if the acceptances take all entries but one |
| `LruSpec.OrphanIff` | DataTypes/LruCache.tcc:216-231 | with a handler that decides by the entry alone the list is lost if and only if the limit is at most one and exactly one entry is refused |
| `LruSpec.OrphanExample` | DataTypes/LruCache.tcc:216-231 | the smallest such case |
| `LruSpec.StatefulExample` | DataTypes/LruCache.tcc:216-231 | the same cache is lost or kept depending on when a handler with a memory is asked |
| `LruRuns.OrderedByLastUse` | DataTypes/LruCache.tcc:125-128 | after every run without a handler the list is strictly ordered by last use |
| `LruRuns.EvictsLeastRecentlyUsed` | DataTypes/LruCache.tcc:183-199 | whatever an insertion removes was used before everything that survives it |
| `LruRuns.SurvivorsAndNew` | DataTypes/LruCache.tcc:183-256 | after every insertion the survivors are left, and behind them the new entry unless its key survived; all survive while there is room, otherwise the latest, one fewer than the limit |
| `LruRuns.GetMovesOne` | DataTypes/LruCache.tcc:102-129 | after every run a get that hits takes that one entry out and puts it last, and one that misses changes nothing |
| `LruRuns.OtherSteps` | DataTypes/LruCache.tcc:139-166 | after every run a lower-bound lookup is the get of the key it finds; a new limit removes nothing |
| `LruRuns.AddKeepsLimit` | DataTypes/LruCache.tcc:183-199 | after a true answer the size is at most max(1, max_size), however the limit was lowered before |
| `LruRuns.DuplicateIsRefusedIff` | DataTypes/LruCache.tcc:183-251 | without a handler, adding a key that is present changes nothing and is refused if and only if there is room; a full cache evicts all the same |
| `LruRuns.UnchangedWithHandlerIff` | DataTypes/LruCache.tcc:183-234 | with any handler the eviction leaves the entries as they were if and only if there is room, or there are five and the handler refuses them all |
| `LruRuns.DuplicateExample` | DataTypes/LruCache.tcc:183-251 | a state in which the refused insertion costs another entry |
| `SharedMutexModel.LocalKnowledge` | Mutex/shared_mutex.cpp:74-122 | one step keeps what the moving thread knows of the count and of m_mutex, and changes neither outside m_read |
| `SharedMutexModel.GoKeepsInv` | Mutex/shared_mutex.cpp:36-122 | every step of lock, try_lock, unlock and their shared forms keeps the invariant |
| `SharedMutexModel.RunKeepsInv` | Mutex/shared_mutex.cpp:36-122 | so does every run of any number of threads |
| `SharedMutexModel.Exclusion` | Mutex/shared_mutex.cpp:36-122 | never a writer together with a reader, nor two writers |
| `SharedMutexModel.CountIsExact` | Mutex/shared_mutex.cpp:74-122 | with m_read free, readers is the number of shared holders, and the readers hold m_mutex exactly when there are some |
| `SharedMutexModel.GroupIsSomeone` | Mutex/shared_mutex.cpp:74-122 | the readers hold m_mutex exactly when some thread is between getting and giving back its share |
| `SharedMutexModel.TryLockJudges` | Mutex/shared_mutex.cpp:49-58 | the step inside try_lock succeeds exactly when no thread writes and none has a share of the hold of the readers |
| `SharedMutexModel.TryLockRun` | Mutex/shared_mutex.cpp:49-58 | try_lock from the call on, in every reachable state: it takes the lock for writing if nobody writes and nobody has a share, and otherwise leaves the whole state as it was |
| `SharedMutexModel.CallReturns` | Mutex/shared_mutex.cpp:36-108 | each of the four calls, whatever the other threads do: it goes through its own places and returns with the lock in the mode asked for; only a try may return without it |
| `SharedMutexModel.TrySharedFailsOnlyAgainstWriter` | Mutex/shared_mutex.cpp:90-108 | try_lock_shared from the call on, whatever the other threads do: it comes back without the lock only if some thread wrote in the meantime |
| `SharedMutexModel.TryFailsAgainstWriter` | Mutex/shared_mutex.cpp:90-108 | the first reader in try_lock_shared gives up exactly when another thread writes |
| `SharedMutexModel.FailedTryRestoresCount` | Mutex/shared_mutex.cpp:90-108 | a failed try_lock_shared leaves the count as it was, whatever runs meanwhile |
| `SharedMutexModel.FirstReaderIsAlone` | Mutex/shared_mutex.cpp:74-83 | a reader waiting for m_mutex inside m_read is the only counted one |
| `SharedMutexModel.WaitsOnlyFor` | Mutex/shared_mutex.cpp:36-122 | for every place of a thread exactly what it waits for: a writer, the readers, or whoever is inside m_read; nowhere else does a call wait |
| `SharedMutexModel.NoDeadlock` | Mutex/shared_mutex.cpp:36-122 | unless all threads are idle, some thread can step or begin its release |
| `SharedMutexModel.QuietRunsEnd` | Mutex/shared_mutex.cpp:36-122 | without new calls every schedule ends after a bounded number of steps |
| `SharedMutexModel.QuietRunsEndFree` | Mutex/shared_mutex.cpp:36-122 | and it ends only with all threads out, both locks free and the count zero |
| `SharedMutexModel.CanDrain` | Mutex/shared_mutex.cpp:36-122 | every state can be emptied without a new call |
| `TSMapModel.First` | DataTypes/TSMap.tcc:420 | begin() is the smallest key |
| `TSMapModel.Next` | DataTypes/TSMap.tcc:420 | stepping goes to the next larger key |
| `TSMapModel.SweepStep` | DataTypes/TSMap.tcc:463-470 | one visit, erasing or not, carries the pass on to the same next entry and counts once |
| `TSMapModel.SweepEnds` | DataTypes/TSMap.tcc:414-472 | what each of the three passes has computed at the end |
| `TSMapModel.RemovedAndKept` | DataTypes/TSMap.tcc:457-472 | removed and kept entries make up the map |
| `TSMapModel.TSMap.constructor` | DataTypes/TSMap.tcc:72-74 | a new map is empty |
| `TSMapModel.TSMap.Find` | DataTypes/TSMap.tcc:94-104 | the value of the key, or a blank and false |
| `TSMapModel.TSMap.LowerBoundKey` | DataTypes/TSMap.tcc:132-143 | the entry with the smallest key not below k |
| `TSMapModel.TSMap.FindInfimumKey` | DataTypes/TSMap.tcc:181-199 | the entry with the greatest key not above k, found by lower_bound and one step back |
| `TSMapModel.TSMap.Size` | DataTypes/TSMap.tcc:204-210 | the number of entries |
| `TSMapModel.TSMap.GetKeyList` | DataTypes/TSMap.tcc:222-232 | every key once, in ascending order |
| `TSMapModel.TSMap.Emplace` | DataTypes/TSMap.tcc:246-257 | stores and answers true if forced or if the key is free; so the answer tells whether the key was free exactly if it was, or if force was withheld |
| `TSMapModel.TSMap.Replace` | DataTypes/TSMap.tcc:289-303 | answers the previous value and whether the key was free; overwrites only by force |
| `TSMapModel.TSMap.Erase` | DataTypes/TSMap.tcc:313-329 | removes the entry if there is no judge or it agrees; a refused entry keeps the value the judge left |
| `TSMapModel.TSMap.Remove` | DataTypes/TSMap.tcc:337-350 | returns the value and removes the entry |
| `TSMapModel.TSMap.ForEachRo` | DataTypes/TSMap.tcc:414-426 | counts the entries that satisfy f |
| `TSMapModel.TSMap.ForEach` | DataTypes/TSMap.tcc:435-447 | counts the entries f accepts and stores what f made of every one |
| `TSMapModel.TSMap.DeleteIf` | DataTypes/TSMap.tcc:457-472 | removes exactly the entries f accepts and stores what f made of the others; count plus remaining size is the old size |
| `TSMapConcurrent.WorkKeepsHalfway` | DataTypes/TSMap.tcc:289-472 | every container access of every section brings the operation nearer to its indivisible form |
| `TSMapConcurrent.SectionEnds` | DataTypes/TSMap.tcc:289-472 | every section ends after a bounded number of accesses |
| `TSMapConcurrent.ReadersOnlyRead` | DataTypes/TSMap.tcc:94-426 | a section under the shared lock changes nothing at any step |
| `TSMapConcurrent.MoveKeepsGood` | DataTypes/TSMap.tcc:94-472 | the invariant of lock, sections and log through every step of every thread |
| `TSMapConcurrent.Linearizable` | DataTypes/TSMap.tcc:94-472 | in every interleaving all answers are those of the logged operations run one after the other |
| `TSMapConcurrent.Sequentially` | DataTypes/TSMap.tcc:94-472 | the indivisible form of each operation, which the sequential history is made of, is what the map does for one caller alone |
| `TSMapConcurrent.CallIsAnswered` | DataTypes/TSMap.tcc:94-472 | whatever the other threads do, a call that has come back was logged once since it began, as the operation that was called, and answered as that operation is on what the log had made of the map |
| `TSMapConcurrent.InsideHolds` | DataTypes/TSMap.tcc:94-472 | find and for_each_ro work under the shared lock, every other section under the exclusive one |
| `TSMapConcurrent.WaitsOnlyForLock` | DataTypes/TSMap.tcc:94-472 | a call can always begin, waits only where the lock makes it wait, and never inside its section |
| `TSMapConcurrent.CountsAtAcquisition` | DataTypes/TSMap.tcc:414-426 | for_each_ro answers for the map as it was when the lock was taken |
| `TSMapConcurrent.DeletesAtomically` | DataTypes/TSMap.tcc:457-472 | delete_if is one filter of the map it found, with nobody else inside |
| `TSMapConcurrent.RealTimeOrder` | DataTypes/TSMap.tcc:94-472 | the sequential order respects the order of calls in time |
| `TSMapConcurrent.NoDeadlock` | DataTypes/TSMap.tcc:94-472 | while a call is under way some thread can take its next step, in the lock or in its section |
| `TSMapConcurrent.QuietRunsEndAnswered` | DataTypes/TSMap.tcc:94-472 | without new calls every schedule of locks and sections is bounded by a number known beforehand, and it can stop only with all calls answered |
| `TaskManagerModel.AdvanceKeepsInv` | Thread/TaskManager.tcc:26-52 | every step of performJob keeps the invariant |
| `TaskManagerModel.SingleFlight` | Thread/TaskManager.tcc:26-52 | a generation runs at most once, and of one key at most one generation is unfinished |
| `TaskManagerModel.SameResult` | Thread/TaskManager.tcc:43-51 | all callers of a generation get one result |
| `TaskManagerModel.ResultsStay` | Thread/TaskManager.tcc:43-51 | a result once given never changes |
| `TaskManagerModel.JoinsTheFlight` | Thread/TaskManager.tcc:32-40 | a lookup that finds an unfinished generation of the key it looks up joins it |
| `TaskManagerModel.CallIsServed` | Thread/TaskManager.tcc:26-52 | a call, whatever the other threads do: until it returns it deals with generations of its own key only, and then it has been given one answer, the result of a generation of that key |
| `TaskManagerModel.InstallsIff` | Thread/TaskManager.tcc:32-40 | a call installs its own function if and only if no call that installed one of that key has yet to erase it |
| `TaskManagerModel.ResultWasGiven` | Thread/TaskManager.tcc:33-43 | every result of a generation is what its function gave when it was run |
| `TaskManagerModel.ErasesItsOwn` | Thread/TaskManager.tcc:45-49 | the erase takes out exactly the future that this call installed |
| `TaskManagerModel.EmptyAtRest` | Thread/TaskManager.tcc:26-52 | once all calls have returned the map is empty and every generation ran exactly once |
| `TaskManagerModel.NoDeadlock` | Thread/TaskManager.tcc:26-52 | while a call is under way some thread can step |
| `TaskManagerModel.WaitsOnlyFor` | Thread/TaskManager.tcc:26-52 | exactly what a call waits for: the mutex in the hands of another thread, or the function while another thread runs it; the first to wait runs it |
| `TaskManagerModel.QuietRunsEnd` | Thread/TaskManager.tcc:26-52 | every call under way returns within a bounded number of steps |
| `TaskManagerModel.QuietRunsEndEmpty` | Thread/TaskManager.tcc:26-52 | and the run can stop only with nothing left in the map |
| `ThreadPoolModel.StepKeepsInv` | Thread/ThreadPool.cpp:29-43 | pushing, taking, running, clearing and stopping keep the balance of jobs and their order |
| `ThreadPoolModel.Conservation` | Thread/ThreadPool.cpp:29-43 | every accepted job is in exactly one place: queued, in hand, finished, dropped as empty, or deleted |
| `ThreadPoolModel.FirstInFirstOut` | DataTypes/TSQueue.tcc:133-169 | jobs leave the queue in the order in which they were accepted |
| `ThreadPoolModel.RunsAtMostOnce` | Thread/ThreadPool.cpp:37-43 | no job is started twice, and an empty function never |
| `ThreadPoolModel.TakenIsRun` | Thread/Thread.cpp:64-69 | a worker that took a real job can always take its next step and lets go of the job only by finishing it, stopped or not |
| `ThreadPoolModel.StoppedWorkerTakesNone` | Thread/Thread.cpp:64-69 | after a stop a worker that is not in dequeue never gets a job again |
| `ThreadPoolModel.StoppedWorkerTakesOne` | Thread/Thread.cpp:64-69 | a worker in dequeue gets at most one more |
| `ThreadPoolModel.EmptyMeansTaken` | DataTypes/TSQueue.tcc:181-195 | when the queue is seen empty every accepted job has been taken or deleted |
| `ThreadPoolModel.EmptyIsDoneIff` | DataTypes/TSQueue.tcc:181-195 | an empty queue means that every accepted job is finished, dropped or deleted if and only if no worker has one in hand |
| `ThreadPoolModel.EmptyIsNotDone` | DataTypes/TSQueue.tcc:181-195 | a run after which the queue is empty and a job is running |
| `ThreadPoolModel.QueueWithinLimit` | DataTypes/TSQueue.tcc:133-140 | under an unchanged limit the queue never grows beyond it |
| `ThreadPoolModel.PushAcceptsIff` | Thread/ThreadPool.cpp:29-32 | in every state the job is accepted, behind all others, if and only if the queue is below its limit; otherwise nothing changes |
| `ThreadPoolModel.AcceptsExactly` | Thread/ThreadPool.cpp:29-32 | over every run the accepted jobs are exactly those pushed while the queue was below its limit, in order |
| `ThreadPoolModel.ClientCalls` | DataTypes/TSQueue.tcc:99-105 | delete_all empties the queue into what was deleted; a new limit or a stop is set at once; none of them touches a worker |
| `ThreadPoolModel.WorkerDoes` | Thread/Thread.cpp:64-69 | what a worker does next in every reachable state: when it leaves, waits and times out, that it takes the front, and that it runs every function that is not empty |
| `ThreadPoolModel.AsConfigured` | Thread/ThreadPool.cpp:17-21 | a pool keeps its workers and its limit, and runs until it is stopped |
| `ThreadPoolModel.StopEndsTaking` | Thread/Thread.cpp:64-69 | after a stop no more jobs are taken altogether than there are workers waiting in dequeue |
| `ThreadPoolModel.NothingLostAtExit` | Thread/Thread.cpp:64-69 | after all workers have left their loops nothing is in hand |
| `ThreadPoolModel.QuietRunsEnd` | Thread/ThreadPool.cpp:37-43 | without pushes and time-outs every schedule of the workers is bounded |
| `ThreadPoolModel.QuietRunsEndDone` | Thread/ThreadPool.cpp:37-43 | and while the pool runs it can stop only with nothing queued and nothing in hand |
| `ThreadPoolModel.CanFinish` | Thread/ThreadPool.cpp:37-43 | so a running pool with a worker can always finish what it has accepted |
| `TimevalModel.NormalIsUnique` | Timer/Timer.cpp:397-398 | a time has one normal form |
| `TimevalModel.CarryIsExact` | Timer/Timer.cpp:399-424 | one carry never changes the time, and it normalises exactly the sums for which one is enough |
| `TimevalModel.CarryTowardsNormal` | Timer/Timer.cpp:399-424 | a normal form is left alone, and anything else is carried by one second towards it |
| `TimevalModel.TimevalSum` | Timer/Timer.cpp:390-427 | the field-by-field adjustment is that carry |
| `TimevalModel.SumIsExact` | Timer/Timer.cpp:390-427 | on normal forms the sum is the normal form of the sum of the times |
| `TimevalModel.DifferenceIsExact` | Timer/Timer.cpp:458-466 | the same for the difference |
| `TimevalModel.SumIsAGroup` | Timer/Timer.cpp:390-427 | the sum of normal forms is normal, commutative and associative |
| `TimevalModel.DifferenceUndoesSum` | Timer/Timer.cpp:458-466 | TimevalDiff is the inverse of TimevalSum |
| `TimevalModel.TimevalDiff` | Timer/Timer.cpp:458-466 | the difference of the times, in normal form when both arguments are |
| `TimevalModel.ComparisonsAgree` | Timer/Timer.cpp:485-508 | on normal forms of any signs the comparisons are those of the times |
| `TimevalModel.ComparisonsAgreeIff` | Timer/Timer.cpp:485-508 | comparing with all normal forms agrees with comparing times if and only if the time itself is in normal form |
| `TimevalModel.ComparisonNeedsNormal` | Timer/Timer.cpp:485-494 | a pair on which they do not agree |
| `TimevalModel.TimevalNormalize` | Timer/Timer.cpp:434-449 | keeps the time and the sign of the microseconds; normal exactly when those signs agree |
| `TimevalModel.TimevalDuration` | Timer/Timer.cpp:510-514 | the unsigned difference, exact when it is not negative and fits |
| `NointSelectModel.TimeLeft` | Sockets/CoreSocket.cpp:490-494 | despite unsigned wrap-around the time left is normalised, not negative, and leads exactly to the stop time |
| `NointSelectModel.AfterAnswer` | Sockets/CoreSocket.cpp:477-496 | after an answer the call is done exactly in the last round, and otherwise has the timeout for the next |
| `NointSelectModel.NointSelect` | Sockets/CoreSocket.cpp:427-511 | which round is the last, what is returned, and the timeout and descriptors of every round, stated by the timeout that the caller gave: each retry of a timed call leads exactly to the stop time and, if the clock has not gone back, waits no longer than the caller asked; an interrupt past the stop time ends it; on a clock that moves on there are at most one more rounds than microseconds in the timeout |
| `NointSelectModel.AdvancingClockEnds` | Sockets/CoreSocket.cpp:456-497 | a timed call ends within that many rounds if, while it goes on, every interrupt finds the clock further on |
| `NointSelectModel.TickingClockProgresses` | Sockets/CoreSocket.cpp:456-497 | there are such clocks, even under endless interrupts |
| `NointSelectModel.StopIsExactIff` | Sockets/CoreSocket.cpp:447-488 | past the stop time is recognised for all clocks if and only if the timeout has at most a million microseconds |
| `NointSelectModel.UncarriedStopIsMisjudged` | Sockets/CoreSocket.cpp:447-488 | beyond that there is a clock reading at which the call gives up too early |
| `StringParserModel.StringParser` | Tools/StringTools.cpp:10-27 | the loop, with its 32-bit start, computes the pieces of the run that ends |
| `StringParserModel.ExactIff` | Tools/StringTools.cpp:10-27 | it ends with pieces that give the input back if and only if the delimiter is not empty and its matches end below 2^32 |
| `StringParserModel.FitsIff` | Tools/StringTools.cpp:13-22 | the matches do so if and only if the input before the last piece is shorter than 2^32 |
| `StringParserModel.ShortInputsAreSplit` | Tools/StringTools.cpp:10-27 | every input below 2^32 and non-empty delimiter: it ends with the split |
| `StringParserModel.JoinOfSplit` | Tools/StringTools.cpp:17-24 | joining the pieces gives the input back |
| `StringParserModel.PiecesAreFree` | Tools/StringTools.cpp:17-24 | no piece contains the delimiter |
| `StringParserModel.SplitOfJoin` | Tools/StringTools.cpp:17-24 | splitting undoes joining if and only if each piece shows the delimiter only where it was put |
| `StringParserModel.CleanForOneCharacter` | Tools/StringTools.cpp:17-24 | for one character that means that no piece contains it |
| `StringParserModel.ParseJoined` | Tools/StringTools.cpp:10-27 | the round trip through the program itself |
| `StringParserModel.EmptyDelimiterNeverEnds` | Tools/StringTools.cpp:17-22 | an empty delimiter never ends |
| `StringParserModel.LateMatchNeverEnds` | Tools/StringTools.cpp:17-22 | for any delimiter a match at 2^32 or later is never passed |
| `StringParserModel.FarMatchNeverEnds` | Tools/StringTools.cpp:17-22 | a one-character match that ends at 2^32 or later is never passed |
| `StringParserModel.HaltsIff` | Tools/StringTools.cpp:10-27 | for one character the loop ends if and only if all matches end below 2^32 |
| `StringParserModel.WrapsLengthen` | Tools/StringTools.cpp:20 | every wrap of the start adds 2^32 characters to the joined result |
| `StringParserModel.LongInputNeverEnds` | Tools/StringTools.cpp:20 | a concrete input on which the wrapped start repeats for ever |

## Left out

- Floating point: rounding in the mathematics; reals are used throughout, and a division by zero is an error value.
- `Givens::Inverse`: `Solve` uses only the first column of its right-hand side, so there is no full inverse to state.
- PolyfitModel.Polyfit: degrees below -1 and matrix sizes beyond 32 bits are not modelled; such a degree converts to a huge unsigned size.
- Keys of the cache and of the map are integers; only their order matters.
- SharedMutexModel.TryLockJudges: `std::mutex::try_lock` may also fail without a reason; here it fails only while the lock is taken, in `try_lock` and in `try_lock_shared`.
- Waiting: `dequeue`, `peek` and the like are modelled after the wait, with the time-out as the outcome on an empty queue.
- Locks around the queue and the cache: their operations are proved one at a time; other threads running while the handler is called without the lock, and handlers that call back into the cache, are not modelled.
- LruRuns.EvictsLeastRecentlyUsed: for runs without a handler; with one, the order of refused entries is in LruSpec.EvictGoesAlong.
- LruSpec.OrphanIff: for handlers whose answer depends on the entry alone; LruSpec.LostIffOneLeft is for all handlers.
- `shared_lock`: its owner flag is one boolean per guard; the map's guards are scoped, which the sections of the concurrent model reproduce.
- One thread takes the shared_mutex at most once at a time; recursive use is undefined in the source as well.
- `TSMap`: `createInPlace`, `perform`, `perform_ro`, `clear`, `empty` and the variants of the searches that drop the key would add easy members only.
- TSMapConcurrent.Linearizable: for find, replace, erase, for_each_ro, for_each and delete_if, with functions that depend on the entry alone and do not call back into the map.
- TaskManagerModel.NoDeadlock: a job is one step, so that jobs end is assumed; jobs that call performJob for their own key are not modelled.
- ThreadPoolModel.CanFinish: that workers are scheduled and jobs end is assumed; starting again after a stop, and jobs that throw, are not modelled.
- Thread start, join and detach rest on the operating system and are not modelled.
- TimevalModel.TimevalSum: the fields are unbounded integers.
- NointSelectModel.NointSelect: times are below 2^42 seconds, so that the signed 64-bit products of the source do not overflow; a negative timeout is one that `select` answers without being interrupted; it is stated for calls that end, a timed call does under NointSelectModel.AdvancingClockEnds, an untimed one when `select` answers at last.
- StringParserModel.StringParser: states the result for inputs on which the loop ends, which is StringParserModel.ShortInputsAreSplit below 2^32 characters and StringParserModel.HaltsIff for one character.
- `noint_poll`, `noint_block_read_timeout`, socket set-up and name look-up, `FileIO`, `IDGenerator`, `ObjectId`, time formatting, and all printing: foreign calls, or nothing to prove.
