# Verified model of the satellite image, refuge server and market programs

A Dafny model of five parts of the repository that work by changing shared state, with proofs of what they compute
and of what every run keeps. `dafny verify dfyconfig.toml` checks the whole project.

**Edge filter** (`Images`, `Matrices`, `Sums`, `Blur`, `Sobel`, `Suppression`, `ParallelSuppression`, `Hysteresis`,
`Pipeline`, `CannyEdgeFilter`, `Transposition`, `KernelShape`). `CannyEdgeFilter.EdgeDetection` is the C++ class with its four
matrices; each stage updates them in place and is proved to compute a function of the image. The functions are
stated on whole images, and the other modules prove what they mean. The worker threads of the suppression loop are a
state machine whose steps are single statements with private variables. The linking pass is a function for any order
of visits, with an explicit outcome for an index outside the matrices.

**Client table** (`ClientLists`, `ServicePass`, `ClientTable`, `ClientRuns`). `ClientTable.Server` is the fixed array
with its count, compacted while it is scanned. `ServicePass.Pass` is one scan on the list of clients, `ClientRuns.Run`
whole runs of the server loop, which `ClientRuns.ServeEvents` carries out on the array.

**State summary** (`StateDocument`, `SharedState`). `StateDocument.Apply` is what an updater does to the document it
read, `StateStore` the stored entry, and `SharedState.Run` any interleaving of gets and puts of any number of updaters.

**Image transfer** (`ImageTransfer`). The sender's loop, the receiver's loop, and every way of cutting up the stream
between them.

**Market** (`Checkout`, `MarketRuns`). `Checkout.Market` holds the tables and the balance, `Checkout.Place` is the
checkout as one step, and `MarketRuns.Run` any serial run of added offers, checkouts and status updates. A function
says which database statements fail.

`Subsequences` holds lemmas on sequences, and `Options` a datatype, that two of these parts share.

## Where the code differs from what is said of it

- The filter's README.md:146 has weak edges kept only if they are connected to strong ones. The code's neighbour test
  lets only the up-left diagonal through, and the driver calls the function on every pixel that is not strong, so every
  weak pixel is kept. The model follows the code; `Hysteresis.PassAgainstDocumentedRule` gives the exact condition
  under which the two agree and `Hysteresis.DocumentedRuleNotMet` an image on which they do not.
- The linking pass indexes its matrices at row or column -1 when a pixel of the first row or column is weak and not
  strong. The zero border of the previous stage rules this out if and only if low > 0 or high <= 0.
- The scan of the client table has no bound of its own: it leaves the table if and only if a descriptor exceeds 100,
  and always once 98 clients are listed, although the server accepts up to 100.
- The transfer marker may occur inside a compressed image; then some fragmentation cuts the image short.
- The stock check of a checkout looks at each line on its own, so a request that names a product twice can drive its
  stock below zero.
- The balance is changed before the commit and not restored when the commit fails; this is the only way in which a
  refused checkout changes it.
- Updates of the state summary drop out of its history exactly when a write falls between another writer's get and
  put. An alert counter at some moment falls short of the alerts put for it exactly when such an alert falls there; in
  the program the other writer is then a supply update on a client's or the web server's thread.

## Model

| member | source | states |
|---|---|---|
| Hysteresis.AnyOrderThresholds | h-p-cpp-hope-programming-cpp-manugcr/lib/cannyEdgeFilter/src/cannyEdgeFilter.cpp:295-331 | Whatever the order in which every pixel is visited, the recursive in-place pass ends with strong = strong or weak, every pixel at or above a threshold unchanged and every other pixel 0. |
| Hysteresis.InBoundsIffSafeBorder | h-p-cpp-hope-programming-cpp-manugcr/lib/cannyEdgeFilter/src/cannyEdgeFilter.cpp:265-331 | A pass over the whole frame indexes no matrix outside its frame if and only if no pixel of the first row or column is weak without being strong, for every image, every pair of thresholds and every order. |
| Hysteresis.CheckSettles | h-p-cpp-hope-programming-cpp-manugcr/lib/cannyEdgeFilter/src/cannyEdgeFilter.cpp:265-293 | One call, on the way down the up-left diagonal, stays inside the frame, gives its own pixel its final mark and level, and takes neither from any pixel that has them. |
| Hysteresis.RasterThresholds | h-p-cpp-hope-programming-cpp-manugcr/lib/cannyEdgeFilter/src/cannyEdgeFilter.cpp:319-330 | The driver's row-by-row order has that same outcome, and activates checkContours at most twice per pixel. |
| Hysteresis.AtMostOneNestedCall | h-p-cpp-hope-programming-cpp-manugcr/lib/cannyEdgeFilter/src/cannyEdgeFilter.cpp:283-292 | When up-left neighbours come first, each call of the driver leads to at most one nested call, which returns without recursing. |
| Hysteresis.RasterCallCount | h-p-cpp-hope-programming-cpp-manugcr/lib/cannyEdgeFilter/src/cannyEdgeFilter.cpp:319-330 | Over a whole such sweep the activations are at most twice the pixels visited. |
| Hysteresis.RasterIsUpLeftFirst | h-p-cpp-hope-programming-cpp-manugcr/lib/cannyEdgeFilter/src/cannyEdgeFilter.cpp:319-323 | The order of the driver's loops visits every pixel after its up-left neighbour. |
| Hysteresis.PassAgainstDocumentedRule | h-p-cpp-hope-programming-cpp-manugcr/lib/cannyEdgeFilter/README.md:146 | The pixels the pass keeps include every pixel reached from a strong one by a chain of 8-connected weak ones, and are exactly those if and only if there is no island of weak pixels that no other weak or strong pixel touches. |
| Hysteresis.KeepsDocumentedEdges | h-p-cpp-hope-programming-cpp-manugcr/lib/cannyEdgeFilter/README.md:146 | The same comparison for any two masks: strong or weak against linked to strong. |
| Hysteresis.DocumentedRuleNotMet | h-p-cpp-hope-programming-cpp-manugcr/lib/cannyEdgeFilter/README.md:146 | A 3x3 image on which the pass keeps a weak pixel that is linked to no strong one. |
| CannyEdgeFilter.EdgeDetection.CheckContours | h-p-cpp-hope-programming-cpp-manugcr/lib/cannyEdgeFilter/src/cannyEdgeFilter.cpp:265-293 | The in-place recursion terminates and leaves the strong mask and the edge matrix exactly as the value-level call does; its precondition is only that this call stays inside the frame. |
| CannyEdgeFilter.EdgeDetection.CutMasks | h-p-cpp-hope-programming-cpp-manugcr/lib/cannyEdgeFilter/src/cannyEdgeFilter.cpp:298-315 | The two masks are the pixels at or above the high and at or above the low threshold. |
| CannyEdgeFilter.EdgeDetection.VisitPixel | h-p-cpp-hope-programming-cpp-manugcr/lib/cannyEdgeFilter/src/cannyEdgeFilter.cpp:323-328 | One iteration of the driver advances the raster sweep by one pixel. |
| CannyEdgeFilter.EdgeDetection.LinkWeakEdges | h-p-cpp-hope-programming-cpp-manugcr/lib/cannyEdgeFilter/src/cannyEdgeFilter.cpp:319-330 | The driver leaves strong = strong or weak in the mask and the plain threshold in the edge matrix. |
| CannyEdgeFilter.EdgeDetection.ApplyLinkingAndHysteresis | h-p-cpp-hope-programming-cpp-manugcr/lib/cannyEdgeFilter/src/cannyEdgeFilter.cpp:295-331 | The whole stage replaces the edge matrix by its plain threshold. |
| ParallelSuppression.ProgressAlways | h-p-cpp-hope-programming-cpp-manugcr/lib/cannyEdgeFilter/src/cannyEdgeFilter.cpp:207-254 | At every moment of every interleaving each completed iteration has its final level in its cell, every other cell is untouched, and each worker's private variables hold what its current iteration put there. |
| ParallelSuppression.FinishedWhenAllExecuted | h-p-cpp-hope-programming-cpp-manugcr/lib/cannyEdgeFilter/src/cannyEdgeFilter.cpp:207-254 | Every executed statement uses up exactly one of those left, and a schedule finishes the loop if and only if it executes all of them. |
| ParallelSuppression.ConsistencyKept | h-p-cpp-hope-programming-cpp-manugcr/lib/cannyEdgeFilter/src/cannyEdgeFilter.cpp:212-252 | Each statement keeps the private variables consistent although they start uninitialised, and the stored level is the sequential one. |
| Suppression.UnmatchedOnlyOutsideRange | h-p-cpp-hope-programming-cpp-manugcr/lib/cannyEdgeFilter/src/cannyEdgeFilter.cpp:216-242 | The preset neighbours 255 survive the four range tests exactly for directions outside 0 to 256, so never for a normalised direction. |
| CannyEdgeFilter.EdgeDetection.SuppressPixel | h-p-cpp-hope-programming-cpp-manugcr/lib/cannyEdgeFilter/src/cannyEdgeFilter.cpp:212-252 | The sequential loop body computes the level that the pointwise rule keeps. |
| CannyEdgeFilter.EdgeDetection.NonMaximumSuppression | h-p-cpp-hope-programming-cpp-manugcr/lib/cannyEdgeFilter/src/cannyEdgeFilter.cpp:195-263 | The stage leaves maxima along the gradient direction, 0 elsewhere, and a zero border. |
| Pipeline.FinalPixel | h-p-cpp-hope-programming-cpp-manugcr/lib/cannyEdgeFilter/src/cannyEdgeFilter.cpp:333-358 | The filtered pixel is the byte cast of the blurred image's gradient magnitude exactly when the pixel is interior, not exceeded by the two opposite neighbours along its direction, and that byte reaches a threshold; otherwise 0. `Pipeline.ComparedNeighbours` names the neighbours for each direction. |
| Pipeline.KeptPixel | h-p-cpp-hope-programming-cpp-manugcr/lib/cannyEdgeFilter/src/cannyEdgeFilter.cpp:195-331 | The last two stages leave exactly that byte for any magnitudes and any normalised directions. |
| CannyEdgeFilter.EdgeDetection.CannyEdgeDetection | h-p-cpp-hope-programming-cpp-manugcr/lib/cannyEdgeFilter/src/cannyEdgeFilter.cpp:333-358 | On a loaded image the four in-place stages leave in the edge matrix the filter's value on the original image; an empty image is reported as not loaded. |
| CannyEdgeFilter.EdgeDetection.CopyInside | h-p-cpp-hope-programming-cpp-manugcr/lib/cannyEdgeFilter/src/cannyEdgeFilter.cpp:82-88 | The fifth loop puts the image inside the border and leaves the border alone. |
| CannyEdgeFilter.EdgeDetection.FillKernel | h-p-cpp-hope-programming-cpp-manugcr/lib/cannyEdgeFilter/src/cannyEdgeFilter.cpp:92-100 | The kernel loops store the raw weights and accumulate their sum. |
| CannyEdgeFilter.EdgeDetection.BuildKernel | h-p-cpp-hope-programming-cpp-manugcr/lib/cannyEdgeFilter/src/cannyEdgeFilter.cpp:90-101 | The kernel holds the raw weights divided by their sum. |
| CannyEdgeFilter.EdgeDetection.Accumulate | h-p-cpp-hope-programming-cpp-manugcr/lib/cannyEdgeFilter/src/cannyEdgeFilter.cpp:109-117 | The accumulator of one output pixel ends at the weighted sum over its padded neighbourhood. |
| CannyEdgeFilter.EdgeDetection.Filter | h-p-cpp-hope-programming-cpp-manugcr/lib/cannyEdgeFilter/src/cannyEdgeFilter.cpp:105-121 | Each output cell holds the cast of that sum; none is written for another pixel. |
| CannyEdgeFilter.EdgeDetection.ApplyGaussianBlur | h-p-cpp-hope-programming-cpp-manugcr/lib/cannyEdgeFilter/src/cannyEdgeFilter.cpp:30-124 | The stage leaves the blurred image in the edge matrix. |
| Blur.Gaussian.WeightsAreConvex | h-p-cpp-hope-programming-cpp-manugcr/lib/cannyEdgeFilter/src/cannyEdgeFilter.cpp:90-101 | The normalised weights are positive and add up to one. |
| Blur.BlurredWithinNeighbourhood | h-p-cpp-hope-programming-cpp-manugcr/lib/cannyEdgeFilter/src/cannyEdgeFilter.cpp:109-117 | Any bounds on the grey levels under the kernel, zero padding included, are bounds on the accumulated value. |
| Blur.BlurLevelWithinNeighbourhood | h-p-cpp-hope-programming-cpp-manugcr/lib/cannyEdgeFilter/src/cannyEdgeFilter.cpp:118-119 | The byte cast is in range; the stored level obeys the same bounds and is less than one below the weighted average. |
| Sobel.LoopsComputeGradients | h-p-cpp-hope-programming-cpp-manugcr/lib/cannyEdgeFilter/src/cannyEdgeFilter.cpp:149-163 | The kernel loops end at the differences of opposite neighbours. |
| Sobel.PartialSums | h-p-cpp-hope-programming-cpp-manugcr/lib/cannyEdgeFilter/src/cannyEdgeFilter.cpp:149-163 | At every point of the kernel loops both accumulators lie in -1020 to 1020. |
| Sobel.AccumulatedRange | h-p-cpp-hope-programming-cpp-manugcr/lib/cannyEdgeFilter/src/cannyEdgeFilter.cpp:149-163 | For any 3x3 kernel a partial sum lies between 255 times the negative and 255 times the positive weights seen so far. |
| Sobel.SquaredMagnitudeBound | h-p-cpp-hope-programming-cpp-manugcr/lib/cannyEdgeFilter/src/cannyEdgeFilter.cpp:169-171 | The squared magnitude is at most 1300500, which some image reaches, so every integer before the square root is exact in binary32. |
| Sobel.BrightnessDoesNotMatter | h-p-cpp-hope-programming-cpp-manugcr/lib/cannyEdgeFilter/src/cannyEdgeFilter.cpp:137-187 | Brightening every pixel by the same amount changes neither the magnitude nor the direction image. |
| CannyEdgeFilter.EdgeDetection.Accumulators | h-p-cpp-hope-programming-cpp-manugcr/lib/cannyEdgeFilter/src/cannyEdgeFilter.cpp:149-163 | The two accumulators of one pixel follow the loops' order of additions. |
| CannyEdgeFilter.EdgeDetection.PixelGradient | h-p-cpp-hope-programming-cpp-manugcr/lib/cannyEdgeFilter/src/cannyEdgeFilter.cpp:149-171 | Magnitude and direction of one pixel come from the two differences. |
| CannyEdgeFilter.EdgeDetection.InteriorGradients | h-p-cpp-hope-programming-cpp-manugcr/lib/cannyEdgeFilter/src/cannyEdgeFilter.cpp:145-173 | Every interior pixel gets its magnitude and direction. |
| CannyEdgeFilter.EdgeDetection.SobelOperator | h-p-cpp-hope-programming-cpp-manugcr/lib/cannyEdgeFilter/src/cannyEdgeFilter.cpp:126-193 | The stage leaves the magnitudes with a zero border, and the normalised directions. |
| Matrices.SetBorder | h-p-cpp-hope-programming-cpp-manugcr/lib/cannyEdgeFilter/src/cannyEdgeFilter.cpp:256-260 | The four row and column assignments set exactly the border and leave the interior alone. |
| Transposition.BlurTransposes | h-p-cpp-hope-programming-cpp-manugcr/lib/cannyEdgeFilter/src/cannyEdgeFilter.cpp:92-121 | Blurring a transposed image gives the transposed blurred image. |
| Transposition.GradientsTranspose | h-p-cpp-hope-programming-cpp-manugcr/lib/cannyEdgeFilter/src/cannyEdgeFilter.cpp:137-163 | Transposing exchanges the gradients and both their signs. |
| Transposition.MagnitudesTranspose | h-p-cpp-hope-programming-cpp-manugcr/lib/cannyEdgeFilter/src/cannyEdgeFilter.cpp:30-178 | Blur followed by gradients commutes with transposing: the whole magnitude field transposes. |
| ClientLists.ScanReachesEveryClient | lab1_-manugcr/src/server.c:45-66 | Although bounded by the largest descriptor seen so far, the scan reaches every client and finds the true maximum; it stays inside the table if and only if no descriptor exceeds 100. |
| ClientLists.LargestExceedsCount | lab1_-manugcr/src/server.c:45-66 | With n clients and the three own descriptors, all distinct and positive, the largest is at least n + 3. |
| ClientTable.Server.BuildReadSet | lab1_-manugcr/src/server.c:45-66 | The loop collects exactly the server's own and all clients' descriptors, and their maximum. |
| ServicePass.WhoIsReadAndDropped | lab1_-manugcr/src/server.c:91-144 | A ready client is passed over if and only if the client just before it was removed in this pass; a client is dropped if and only if it was read after hanging up. |
| ServicePass.NoClientReadTwice | lab1_-manugcr/src/server.c:91-144 | No client is read twice in a pass, and none is listed twice after it. |
| ServicePass.PassKeepsOrder | lab1_-manugcr/src/server.c:91-144 | Reads happen, and clients remain, in connection order; none appears that was not connected. |
| ServicePass.AtLeastHalfRemoved | lab1_-manugcr/src/server.c:91-101 | A pass removes at least half of the clients that have hung up. |
| ServicePass.EverySecondSurvives | lab1_-manugcr/src/server.c:91-101 | The half is reached: when every client has hung up, exactly every second one survives. |
| ServicePass.PassAdvances | lab1_-manugcr/src/server.c:91-101 | One iteration of the in-place loop, shift included, is one step of the pass on the client list. |
| ClientTable.Server.ServeSlot | lab1_-manugcr/src/server.c:93-101 | The loop body at one slot takes that step in the shared array. |
| ClientTable.Server.ServeClients | lab1_-manugcr/src/server.c:91-144 | Mutating the table while scanning it serves and keeps exactly the clients of the pass, each entry with its role. |
| ClientTable.Server.AcceptNewConnection | lab1_-manugcr/src/server.c:211-241 | An authenticated client is appended with its role; a rejected one leaves the table as it was. |
| ClientTable.Server.DisconnectClient | lab1_-manugcr/src/server.c:398-421 | Removes exactly the given entry, keeps the order of the others, frees the last slot. |
| ClientTable.Server.DisconnectAllClients | lab1_-manugcr/src/server.c:423-451 | Empties the table and frees every slot. |
| SharedState.EveryDocumentIsSerial | h-p-cpp-hope-programming-cpp-manugcr/lib/libsta/src/supplies.cpp:119-265 | In every interleaving of unlocked get, modify and put, the stored document and every copy in flight are the outcome of running some of the updates put so far one after another, in the order of their puts. |
| SharedState.EveryInterleavingKeepsTheDocument | h-p-cpp-hope-programming-cpp-manugcr/src/server.cpp:657-729 | In every interleaving the stored document keeps its keys, and supplies and counters stay non-negative. |
| SharedState.EveryCopyInFlightIsSound | h-p-cpp-hope-programming-cpp-manugcr/lib/libsta/src/supplies.cpp:119-265 | So does every copy between its get and its put, and no updater finds its counter missing. |
| SharedState.CountersNeverExceedPuts | h-p-cpp-hope-programming-cpp-manugcr/lib/libsta/src/supplies.cpp:182-236 | In every interleaving no counter exceeds its start plus the alerts put for its entry. |
| StateDocument.UpdateKeepsWellFormed | h-p-cpp-hope-programming-cpp-manugcr/lib/libsta/src/supplies.cpp:119-265 | Every update, however it ends, leaves a well-formed document and never reaches the exit for a missing counter. |
| StateDocument.SerialKeepsWellFormed | h-p-cpp-hope-programming-cpp-manugcr/lib/libsta/src/supplies.cpp:119-265 | So does every serial run of updates. |
| StateDocument.SerialCountsAlerts | h-p-cpp-hope-programming-cpp-manugcr/lib/libsta/src/supplies.cpp:182-236 | In serial runs each counter grows by exactly the alerts for its entry, unless the document is created anew. |
| StateDocument.UpdatesCommute | h-p-cpp-hope-programming-cpp-manugcr/lib/libsta/src/supplies.cpp:119-265 | On every document, updates of different sections, of different supplies, and alerts among themselves commute. |
| StateDocument.StateStore.ModifySupplies | h-p-cpp-hope-programming-cpp-manugcr/lib/libsta/src/supplies.cpp:119-179 | Ends and stores as the update prescribes on the document read, missing document, unknown supply, bad and negative numbers included. |
| StateDocument.StateStore.ModifyAlerts | h-p-cpp-hope-programming-cpp-manugcr/lib/libsta/src/supplies.cpp:182-236 | Ends and stores as `StateDocument.AlertRaises` says of the document read; a missing document and missing counters are included. |
| StateDocument.StateStore.ModifyEmergencies | h-p-cpp-hope-programming-cpp-manugcr/lib/libsta/src/supplies.cpp:238-265 | Stores timestamp and message, newlines removed, and leaves the other sections alone. |
| ImageTransfer.FaithfulIffNoMarkerInside | h-p-cpp-hope-programming-cpp-manugcr/src/client.cpp:15-31 | The receiver reconstructs the payload however the network cuts up the stream if and only if the payload does not contain the marker. |
| ImageTransfer.ReceivesPrefix | h-p-cpp-hope-programming-cpp-manugcr/src/client.cpp:15-31 | For every fragmentation of payload and marker the receiver writes a prefix of the payload. |
| ImageTransfer.ReceivesAllIffNoEarlyStop | h-p-cpp-hope-programming-cpp-manugcr/src/client.cpp:15-31 | It writes the whole payload if and only if no chunk before the last ends with the marker. |
| ImageTransfer.MarkerInPayloadCanTruncate | h-p-cpp-hope-programming-cpp-manugcr/src/client.cpp:17-22 | For any payload with a marker anywhere in it, a fragmentation at which the receiver stops early. |
| Checkout.PlacedTakesRequested | newworld-manugcr/internal/repositories/offer_repository.go:30-106 | A checkout that succeeds takes from each stock the sum of all its lines, changes no other field of any offer, and takes the total from the balance. |
| Checkout.SucceedsIff | newworld-manugcr/internal/repositories/offer_repository.go:30-106 | It succeeds if and only if every line passes on its own against the stock before the request and no database statement fails. |
| Checkout.OversellsIffRepeated | newworld-manugcr/internal/repositories/offer_repository.go:41-92 | For a given list of products, no accepted request drives a stock below zero if and only if the list names no product twice. |
| Checkout.StockAfterCheckout | newworld-manugcr/internal/repositories/offer_repository.go:41-92 | With k lines for a product its stock ends at least at -(k - 1) times what it was. |
| Checkout.OneLineLeavesStock | newworld-manugcr/internal/repositories/offer_repository.go:41-92 | A product named once never ends below zero. |
| Checkout.DeductedStock | newworld-manugcr/internal/repositories/offer_repository.go:81-92 | The decrement pass takes from each offer the sum over its lines and changes nothing else of it. |
| Checkout.NoProblem | newworld-manugcr/internal/repositories/offer_repository.go:41-58 | The validation pass, which stops at the first problem, finds none if and only if each line passes on its own. |
| Checkout.Market.CreateOrder | newworld-manugcr/internal/repositories/offer_repository.go:30-106 | The two loops, the insert, the balance update and every early return produce the state and the result of the one-step transaction. |
| Checkout.Market.Commit | newworld-manugcr/internal/repositories/offer_repository.go:68-105 | The part after validation, on every path, rollback included. |
| Checkout.Market.DecrementOffers | newworld-manugcr/internal/repositories/offer_repository.go:80-92 | The decrement loop saves every line unless one of its statements fails. |
| Checkout.Market.UpdateOrderStatus | newworld-manugcr/internal/repositories/admin_repository.go:37-39 | Exactly the orders with the given id get the status. |
| MarketRuns.Conservation | newworld-manugcr/internal/repositories/offer_repository.go:26-106 | Over every serial run: stock plus ordered quantity is the created quantity of a product; the balance is 5000 minus all order totals minus what failed commits took, which is nothing when every commit succeeds; order ids are distinct and totals add up. |
| MarketRuns.EventConservesStock | newworld-manugcr/internal/repositories/offer_repository.go:26-106 | Each event keeps stock plus ordered quantity of every product, and only an added offer creates stock. |
| MarketRuns.EventKeepsOrdersSound | newworld-manugcr/internal/repositories/offer_repository.go:68-78 | Each event keeps order ids distinct and every total equal to that of the order's items, which `Checkout.ItemsTotalConcat` and `Checkout.OneMoreLineCosts` fix. |
| MarketRuns.StatusOfMatchingOrders | newworld-manugcr/internal/repositories/admin_repository.go:37-39 | A status update changes the status of the orders with that id and no other field of any order. |
| Pipeline.BorderIsSafeIff | h-p-cpp-hope-programming-cpp-manugcr/lib/cannyEdgeFilter/src/cannyEdgeFilter.cpp:256-260 | On a non-empty image the border zeroed by the suppression is safe for the linking pass if and only if low > 0 or high <= 0. |
| Pipeline.LinkingInBoundsIff | h-p-cpp-hope-programming-cpp-manugcr/lib/cannyEdgeFilter/src/cannyEdgeFilter.cpp:256-331 | After the suppression the linking pass stays inside its matrices if and only if low > 0 or high <= 0, for every non-empty image and every order of visits. |
| Pipeline.ZeroThresholdOverruns | h-p-cpp-hope-programming-cpp-manugcr/lib/cannyEdgeFilter/src/cannyEdgeFilter.cpp:283-289 | One black pixel with the thresholds 0 and 150, for which the pass leaves its matrices. |
| ParallelSuppression.EveryInterleavingSuppresses | h-p-cpp-hope-programming-cpp-manugcr/lib/cannyEdgeFilter/src/cannyEdgeFilter.cpp:207-254 | For any number of workers, any distribution of the iterations, any initial private values and any interleaving of the statements, a finished loop leaves the edge matrix that the sequential loop leaves, border cells included. |
| CannyEdgeFilter.EdgeDetection.SuppressInterior | h-p-cpp-hope-programming-cpp-manugcr/lib/cannyEdgeFilter/src/cannyEdgeFilter.cpp:208-254 | The sequential loop writes the pointwise level to every interior pixel and leaves the border as it was: the matrix of every interleaving. |
| ClientLists.NeverFull | lab1_-manugcr/src/server.c:78-86 | While every descriptor is at most 100 the table holds at most 97 clients, so the branch for a full table is not taken. |
| ClientLists.CrowdedTableOverruns | lab1_-manugcr/src/server.c:45-80 | With 98 to 100 clients listed, which the accepting branch allows, the scan leaves the table, whatever the descriptors. |
| ClientRuns.LatestAreLast | lab1_-manugcr/src/server.c:231-233 | The list of latest acceptances holds exactly the entries that no later one with the same descriptor follows, in the order let in. |
| ClientRuns.HungClientsAreCleared | lab1_-manugcr/src/server.c:40-157 | If no other listed client hangs up, n iterations leave at most k / 2^n of the k that have, none once 2^n exceeds k. |
| ClientRuns.HangUpsHalve | lab1_-manugcr/src/server.c:40-157 | In general, n iterations leave at most 2^-n of the clients that had hung up at the first, 2^-(n-1) of those that hung up at the second, and so on, from any table, whatever else is ready and whoever connects meanwhile, reusing descriptors or not. |
| ClientRuns.EventHalves | lab1_-manugcr/src/server.c:40-157 | One iteration of the server loop, arrival and emergency included, removes at least half of the listed clients that have hung up. |
| ClientRuns.ServeEvents | lab1_-manugcr/src/server.c:40-157 | The server loop over any list of possible events keeps the table equal to the run of the model, serves in each pass what the pass says, and never scans past the table. |
| SharedState.NothingLostIffNoOverlap | h-p-cpp-hope-programming-cpp-manugcr/lib/libsta/src/supplies.cpp:119-265 | Every update put is in the lineage of the stored document if and only if no write falls between another writer's get and its put; then the document is the serial outcome of all of them. |
| Checkout.RefusedChangesNothing | newworld-manugcr/internal/repositories/offer_repository.go:30-106 | A checkout that is refused leaves offers and orders as they were and takes from the balance the total of an acceptable request of which only the commit failed, otherwise nothing. |
| Checkout.RefusedChangesBalanceIff | newworld-manugcr/internal/repositories/offer_repository.go:94-103 | A refused checkout changes the balance if and only if every line passes, every statement before the commit succeeds, the commit fails, and the total is not 0. |
| Checkout.MoneyDisappears | newworld-manugcr/internal/repositories/offer_repository.go:94-103 | A state, a request and a failing commit with which 200 leave the balance and no order is recorded. |
| Checkout.ReachesCommitIff | newworld-manugcr/internal/repositories/offer_repository.go:30-101 | The transaction reaches its commit if and only if every line passes on its own and no earlier statement fails. |
| MarketRuns.EventConservesMoney | newworld-manugcr/internal/repositories/admin_repository.go:10-39 | Money leaves the balance only as an order's total, or as the total of an acceptable checkout of which only the commit failed. |
| ImageTransfer.ReceiveCompressedFile | h-p-cpp-hope-programming-cpp-manugcr/src/client.cpp:12-31 | The loop writes what the receiver specification says of the chunks and counts the bytes written plus the marker if it saw one; all it needs is that no chunk up to the one at which it stops is shorter than the marker. |
| SharedState.CounterCompleteIffNoAlertDropped | h-p-cpp-hope-programming-cpp-manugcr/lib/libsta/src/supplies.cpp:119-265 | While alerts, supply updates and emergencies overlap in any way, the stored counter for an entry never misses an alert put if and only if no updater ever writes a copy older than an alert put for that entry. |
| SharedState.OnlySuppliesDropAlerts | h-p-cpp-hope-programming-cpp-manugcr/src/server.cpp:657-729 | With alerts and emergencies run by the select loop alone and supply updates by the other threads, an alert is dropped only by a supply update. |
| SharedState.SupplyDropsAlert | h-p-cpp-hope-programming-cpp-manugcr/src/server.cpp:720-729 | A run on those threads, for any well-formed document, supply, amount and direction, in which a supply update drops an alert from the counters. |
| ClientLists.FirstOverrun | lab1_-manugcr/src/server.c:45-80 | A list of 94 clients that is scanned in bounds and of which one more client, on descriptor 101, makes the scan leave the table. |
| ParallelSuppression.StepsAreDisjoint | h-p-cpp-hope-programming-cpp-manugcr/lib/cannyEdgeFilter/src/cannyEdgeFilter.cpp:207-254 | A step changes no edge cell but the one it writes, two workers write different cells, no step depends on any edge cell, and no step changes another worker's private variables. |
| ParallelSuppression.StatementsCommute | h-p-cpp-hope-programming-cpp-manugcr/lib/cannyEdgeFilter/src/cannyEdgeFilter.cpp:207-254 | Statements of two workers commute. |
| ImageTransfer.InterruptedTransfer | h-p-cpp-hope-programming-cpp-manugcr/src/server.cpp:620-635 | A transfer given up by the sender leaves the receiver, as long as its comparison stays inside the buffer, with nothing but the start of the file. |
| Pipeline.PeakComparesSquares | h-p-cpp-hope-programming-cpp-manugcr/lib/cannyEdgeFilter/src/cannyEdgeFilter.cpp:170-245 | With a square root that keeps the integers up to 1300500 apart, a pixel is a peak if and only if neither integer squared magnitude along its direction exceeds its own. |
| Pipeline.ComparedNeighbours | h-p-cpp-hope-programming-cpp-manugcr/lib/cannyEdgeFilter/src/cannyEdgeFilter.cpp:215-245 | Range by range of the normalised direction, the two neighbours with which an interior pixel is compared: left and right on [0, 16), [112, 144) and [240, 255], the rising diagonal on [16, 48) and [144, 176), below and above on [48, 80) and [176, 208), the falling diagonal on [80, 112) and [208, 240). |
| Pipeline.SectorsByDirection | h-p-cpp-hope-programming-cpp-manugcr/lib/cannyEdgeFilter/src/cannyEdgeFilter.cpp:215-242 | The scaled and folded angle of a direction falls into the range test of exactly that pair of neighbours. |
| KernelShape.WeightsFollowBell | h-p-cpp-hope-programming-cpp-manugcr/lib/cannyEdgeFilter/src/cannyEdgeFilter.cpp:92-101 | For an exponential function the weight u rows and v columns from the centre is the central weight times exp(-(u*u + v*v) / (2*sigma*sigma)). |
| KernelShape.WeightsAreMirrored | h-p-cpp-hope-programming-cpp-manugcr/lib/cannyEdgeFilter/src/cannyEdgeFilter.cpp:92-101 | The kernel is the same read from either end. |
| KernelShape.LitPixelSpreads | h-p-cpp-hope-programming-cpp-manugcr/lib/cannyEdgeFilter/src/cannyEdgeFilter.cpp:105-117 | A single lit pixel contributes to each pixel its level times the weight of the cell under which it lies, and nothing out of the kernel's reach. |
| KernelShape.BlurredAdds | h-p-cpp-hope-programming-cpp-manugcr/lib/cannyEdgeFilter/src/cannyEdgeFilter.cpp:105-117 | Before truncation the blur is linear, so the spread of single pixels fixes it on every image. |
| KernelShape.BlurReflectsRows | h-p-cpp-hope-programming-cpp-manugcr/lib/cannyEdgeFilter/src/cannyEdgeFilter.cpp:92-121 | Blurring commutes with reflecting the image top to bottom. |
| KernelShape.BlurReflectsColumns | h-p-cpp-hope-programming-cpp-manugcr/lib/cannyEdgeFilter/src/cannyEdgeFilter.cpp:92-121 | Blurring commutes with reflecting the image left to right. |
| CannyEdgeFilter.EdgeDetection.PadImage | h-p-cpp-hope-programming-cpp-manugcr/lib/cannyEdgeFilter/src/cannyEdgeFilter.cpp:34-88 | For every odd kernel size the five fill loops leave each original pixel shifted by half a kernel and 0 everywhere else. |
| Sobel.RampGradients | h-p-cpp-hope-programming-cpp-manugcr/lib/cannyEdgeFilter/src/cannyEdgeFilter.cpp:140-184 | On a plane of grey levels the gradients are eight times its slopes, to the right and upwards; atan2 gets the vertical one first; magnitude and direction are 0 on the border before normalisation. |
| ClientTable.Server.ServeOnce | lab1_-manugcr/src/server.c:40-157 | One iteration of the server loop: the arrival is listed under its own descriptor and role, then the pass, then the emergency. |
| ClientRuns.LetInMembers | lab1_-manugcr/src/server.c:220-233 | The history of clients let in holds exactly those that some event accepted with a role other than -1, each with that descriptor and role and in the place of its event. |
| ClientRuns.LastOfMeans | lab1_-manugcr/src/server.c:220-233 | The latest entry of a descriptor is the one of the last event that let a client in under it. |
| ClientRuns.EveryRunKeepsTheTable | lab1_-manugcr/src/server.c:40-157 | Over every run at most 97 clients are listed with distinct positive descriptors; each was let in by the latest event that let anyone in under its descriptor, and carries the role of that event; they stand in the order of these events. |
| ServicePass.HungCountIsSize | lab1_-manugcr/src/server.c:97-101 | The number of hung-up clients is that of the listed descriptors among those hung up. |
| StateDocument.AlertRaises | h-p-cpp-hope-programming-cpp-manugcr/lib/libsta/src/supplies.cpp:195-228 | On every well-formed document north, south, east and west raise their own entry's counter by one and change nothing else; any other text writes nothing. |
| StateDocument.AlertCountGrows | h-p-cpp-hope-programming-cpp-manugcr/lib/libsta/src/supplies.cpp:195-228 | An alert counts once, for the entry of its own direction; no other update counts. |
| StateDocument.SupplyEndings | h-p-cpp-hope-programming-cpp-manugcr/lib/libsta/src/supplies.cpp:133-166 | How a supply update ends: unknown names, texts that are no number and negative numbers return, a number too large throws, any other is stored under that name in its category alone. |
| StateDocument.EmergencyStores | h-p-cpp-hope-programming-cpp-manugcr/lib/libsta/src/supplies.cpp:251-257 | An emergency stores its timestamp and its message without newlines, and nothing else. |
| StateDocument.OnlyNewlinesDropped | h-p-cpp-hope-programming-cpp-manugcr/lib/libsta/src/supplies.cpp:253-254 | The stored message has every other character as often and in the same order, and no newline. |
| StateDocument.InitialAmounts | h-p-cpp-hope-programming-cpp-manugcr/lib/libsta/src/supplies.cpp:6-22 | A new document has counters of 0, 100 of each of the seven supplies, and no emergency. |
| SharedState.UndisturbedIsWritten | h-p-cpp-hope-programming-cpp-manugcr/lib/libsta/src/supplies.cpp:119-265 | A get followed at once by its put leaves in the store what the updater writes when it runs alone. |
| ImageTransfer.ReceivedWithoutMarker | h-p-cpp-hope-programming-cpp-manugcr/src/client.cpp:15-31 | When no chunk ends with the marker the receiver writes all it gets. |
| ImageTransfer.EndsWithMarkerMeans | h-p-cpp-hope-programming-cpp-manugcr/src/client.cpp:17 | A chunk is taken for the last one if and only if its last three bytes are E, O and F. |
| ImageTransfer.SendZipFile | h-p-cpp-hope-programming-cpp-manugcr/src/server.cpp:616-645 | The sent bytes are the file and the marker if and only if no write fails; otherwise the buffers of 4096 bytes before the first failing write. |
| Checkout.AcceptableMeans | newworld-manugcr/internal/repositories/offer_repository.go:41-58 | The validation accepts exactly the requests of which every line names an offer and asks for at least one and at most its stock. |
| Checkout.FirstProblemIsFirst | newworld-manugcr/internal/repositories/offer_repository.go:41-58 | A refusal by the validation names the first line that does not pass, and what is wrong with it, in the order of the tests. |
| Checkout.OneMoreLineCosts | newworld-manugcr/internal/repositories/offer_repository.go:60 | One more line raises the total, and lowers the balance, by exactly its offer's price times its quantity. |
| Checkout.ItemsTotalConcat | newworld-manugcr/internal/repositories/offer_repository.go:60 | The total over items is the sum of those over its parts. |
| Checkout.PlacedTotalByProduct | newworld-manugcr/internal/repositories/offer_repository.go:60 | The total of a successful checkout is the sum, over any distinct products that cover it, of the offer's price times all that is asked of it. |
| Checkout.PlacedRecords | newworld-manugcr/internal/repositories/offer_repository.go:60-78 | The order recorded has the next id, is pending, and holds for each line, in order, its product, its quantity and the offer's price. |
| Checkout.Market.CreateOffer | newworld-manugcr/internal/repositories/offer_repository.go:26-28 | A new offer is stored as given, under its id or else the generated one; a duplicate changes nothing. |
| MarketRuns.OffersComeFromEvents | newworld-manugcr/internal/repositories/offer_repository.go:26-28 | Over every run each listed offer is, in everything but the quantity, the one that some event added under its id, whose quantity is the one that counts as created. |
| MarketRuns.AddedOffersStay | newworld-manugcr/internal/repositories/offer_repository.go:26-28 | The id of every offer added is listed ever after. |

## Left out

- CannyEdgeFilter.EdgeDetection.ApplyGaussianBlur: weights and sums are real numbers; the rounding of the double arithmetic and of the kernel is not modelled, so nothing is said of which of two neighbouring levels a rounded sum is cast to.
- CannyEdgeFilter.EdgeDetection.SobelOperator: gradients are integers, which `Sobel.SquaredMagnitudeBound` justifies; square root and arctangent are arbitrary functions of exact integers, and normalisation is any function into 0 to 255. The two local gradient matrices, which nothing reads, are dropped.
- CannyEdgeFilter.EdgeDetection.SuppressPixel: the angle is computed over the reals; the byte cast of a magnitude of 256 or more is out of range in C++ and stays unspecified.
- CannyEdgeFilter.EdgeDetection.CannyEdgeDetection: sigma is not 0 and the kernel size is odd (it is 3); on a non-empty image thresholds with low <= 0 < high are excluded, because by `Pipeline.LinkingInBoundsIff` the linking pass then always leaves its matrices; loading and saving the image files is not modelled.
- ParallelSuppression.EveryInterleavingSuppresses: the workers' statements are atomic steps in some order; as no worker writes what another reads, weaker memory orders are not modelled.
- ClientTable.Server.BuildReadSet: requires that the scan stays inside the table, which by `ClientLists.ScanReachesEveryClient` means that every descriptor is at most 100.
- ClientTable.Server.AcceptNewConnection: the operating system hands out a positive descriptor that is not in use; failures of accept, and the dialogue that yields the role, are inputs.
- ClientTable.Server.ServeClients: the commands a client sends, their log entries and the replies are not modelled, only which entries are read and under which role.
- ClientTable.Server.ServeOnce: the branch for a full table closes whatever descriptor the variable last held; it is dead by `ClientLists.NeverFull`. Alerts do not touch the table and are not modelled.
- StateDocument.StateStore.ModifySupplies: parsing undoes printing of the document, database writes succeed, and the number read from the text is an input.
- SharedState.EveryInterleavingKeepsTheDocument: a get and a put are each atomic, and the document exists when the first updater reads it.
- SharedState.CounterCompleteIffNoAlertDropped: the document is created before the updates counted; the web server's thread creates it once, at its start.
- ImageTransfer.SendZipFile: a write that succeeds takes its whole buffer; a missing file, after which nothing is sent, and read errors are not modelled.
- ImageTransfer.ReceiveCompressedFile: chunks shorter than 3 bytes are excluded up to the one at which the receiver stops, because the comparison then reads before the buffer, which C++ leaves undefined; the results on fragmentations are for chunks of 3 to 1024 bytes; failures to open or write the output file and the decompression are not modelled; no alert is interleaved with the transfer.
- Checkout.Market.CreateOrder: integers are unbounded where Go's wrap around; an order id is used up by an insert even if it is rolled back; concurrent checkouts are not modelled.
- Checkout.Market.UpdateOrderStatus: the database statement either succeeds or changes nothing; only success is modelled.
- The C++ server's list of connected clients is changed by several threads without a lock, so it has no step semantics to prove anything against.
- Counters and totals do not overflow in the model.
- Sockets, pipes, child processes, web routes, page templates, log files, generators of random alerts and the image library itself are not modelled.
- Logging in and checking credentials are single comparisons and would add only easy members.
