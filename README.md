# Hysteresis thresholding and edge linking of the Canny edge detector

This project models step (4) of the N-dimensional Canny edge detector in
`CannyEdgeDetectionRecursiveGaussianImageFilter`: hysteresis thresholding
of the candidate magnitudes with edge linking. The candidate magnitudes are
the gradient magnitude multiplied with the zero crossings of the second
derivative.

- Every pixel above the upper threshold seeds edge following.
- Edge following floods through the radius-1 neighbourhood (3^D entries, reached through the per-axis strides `m_Stride` and the centre entry `m_Center`) to every in-bounds pixel above the lower threshold.
- Its worklist is a doubly linked list of `ListNode<IndexType>` whose nodes come from a node store (`m_NodeList`, `m_NodeStore`).
- The output buffer records which pixels are already linked.
- At the end, every pixel that is not an edge gets `OutsideValue`.
- The threshold setters and getters configure the stage, including the legacy `SetThreshold`, which sets the lower threshold to half the upper one.

Modules, one per file:

- `Grid` (grid.dfy): pixel indices, the bounds check `Inside`, the linear offset of a pixel in the flattened buffer and its inverse, and the radius-1 neighbourhood. Entry `i` of the neighbourhood moves coordinate `k` by the base-3 digit of `i` at stride 3^k, minus one.
- `NodeStore` (node_list.dfy): class `NodeList`, an arena of `ListNode`s. Node `n` is entry `n` of the `value`, `next` and `prev` arrays (`m_Value`, `Next`, `Previous`). The store keeps a stack of free node numbers. A ghost invariant ties the links to the ghost sequence of list nodes: every node is free, linked or borrowed, never two of these at once.
- `Hysteresis` (hysteresis.dfy): what the stage computes, stated independently of the algorithm. A pixel is an edge when a chain of neighbouring pixels above the lower threshold leads to it from a seed. The module also holds the facts about a buffer of edge marks, and worked examples on a 10-pixel line.
- `Linking` (linking.dfy): edge following as functions of the marks and the worklist (`Visit`, `Scan`, `Step`, `Follow`, `FollowSeed`, `LinkSeeds`, `Linked`). The lemmas prove that the marks they leave are exactly the edges.
- `CannyEdgeDetection` (canny_filter.dfy): class `CannyEdgeDetectionFilter`, which holds the thresholds, the outside value, the strides, the centre, the output buffer and the node list. `InBounds` is proved to compute `Grid.Inside`; the other methods (`FollowEdge`, `HysteresisThresholding` and the steps they are built from) are proved to compute the `Linking` functions.

Comparisons and markers:

- A seed is a pixel whose magnitude is strictly greater than the upper threshold.
- Edge following extends to a neighbour whose magnitude is strictly greater than the lower threshold.
- A linked pixel holds the value one in the output.
- `HysteresisThresholding` first clears the output to zero. After linking, it writes `OutsideValue` into every pixel that was not linked.

Hysteresis thresholding is also commonly stated with inclusive thresholds (`>=`). This model uses strict comparisons, taken from ITK's Canny filter, because the header's own implementation file, included at line 285, is not part of this model. The two readings differ only on magnitudes exactly equal to a threshold.

## Model

| member | source | states |
|---|---|---|
| Grid.IndexOfOffset | Sandbox/Source/itkCannyEdgeDetectionRecursiveGaussianImageFilter2.h:110 | converting a pixel index to its buffer offset and back gives the same index |
| Grid.OffsetInjective | Sandbox/Source/itkCannyEdgeDetectionRecursiveGaussianImageFilter2.h:110 | two in-bounds indices with the same buffer offset are the same pixel |
| Grid.CenterIsHalf | Sandbox/Source/itkCannyEdgeDetectionRecursiveGaussianImageFilter2.h:275 | the centre entry number is 3^D / 2, half the neighbourhood size rounded down |
| Grid.CenterIsSelf | Sandbox/Source/itkCannyEdgeDetectionRecursiveGaussianImageFilter2.h:275 | the centre entry of the neighbourhood is the pixel itself: offset zero on every axis |
| Grid.NeighbourOffsetAt | Sandbox/Source/itkCannyEdgeDetectionRecursiveGaussianImageFilter2.h:274 | coordinate k of neighbourhood entry i moves by (i / 3^k) % 3 - 1, which is what reading entry i with stride 3^k gives |
| Grid.EntryOf | Sandbox/Source/itkCannyEdgeDetectionRecursiveGaussianImageFilter2.h:274-275 | every offset of -1, 0 or 1 per axis is the offset of exactly the entry it returns, which lies below 3^D |
| Grid.NeighbourIsAdjacent | Sandbox/Source/itkCannyEdgeDetectionRecursiveGaussianImageFilter2.h:274-275 | every neighbourhood entry differs from the pixel by at most one on each axis |
| Grid.AdjacentIsNeighbour | Sandbox/Source/itkCannyEdgeDetectionRecursiveGaussianImageFilter2.h:274-275 | every index differing by at most one on each axis is some entry of the neighbourhood, so the neighbourhood is complete |
| Grid.NeighbourhoodAdjacent | Sandbox/Source/itkCannyEdgeDetectionRecursiveGaussianImageFilter2.h:274-275 | the whole neighbourhood sequence consists of adjacent indices |
| NodeStore.NodeList.constructor | Sandbox/Source/itkCannyEdgeDetectionRecursiveGaussianImageFilter2.h:277-278 | a store whose nodes are all free, and an empty list |
| NodeStore.NodeList.Borrow | Sandbox/Source/itkCannyEdgeDetectionRecursiveGaussianImageFilter2.h:124 | takes a node that is neither in the list nor already borrowed; the list is unchanged and one fewer node is free |
| NodeStore.NodeList.Return | Sandbox/Source/itkCannyEdgeDetectionRecursiveGaussianImageFilter2.h:124 | a borrowed node goes back to the store; the list is unchanged and one more node is free |
| NodeStore.NodeList.SetValue | Sandbox/Source/itkCannyEdgeDetectionRecursiveGaussianImageFilter2.h:42 | stores an index in the m_Value of a node outside the list, keeping the list valid; no other node's value changes |
| NodeStore.NodeList.Empty | Sandbox/Source/itkCannyEdgeDetectionRecursiveGaussianImageFilter2.h:125 | true exactly when the list holds no node |
| NodeStore.NodeList.Front | Sandbox/Source/itkCannyEdgeDetectionRecursiveGaussianImageFilter2.h:125 | the first node of the list, and its value is the first value of the list |
| NodeStore.NodeList.PushFront | Sandbox/Source/itkCannyEdgeDetectionRecursiveGaussianImageFilter2.h:44-45 | links a borrowed node in at the front; the Next/Previous links stay consistent with the new node sequence |
| NodeStore.NodeList.PopFront | Sandbox/Source/itkCannyEdgeDetectionRecursiveGaussianImageFilter2.h:44-45 | unlinks the first node, which becomes borrowed; the rest of the list and its links are kept |
| NodeStore.NodeList.Enqueue | Sandbox/Source/itkCannyEdgeDetectionRecursiveGaussianImageFilter2.h:123-126 | borrow, set the value, push front: the list's values gain the index at the front |
| NodeStore.NodeList.Dequeue | Sandbox/Source/itkCannyEdgeDetectionRecursiveGaussianImageFilter2.h:123-126 | returns the front value and the rest of the list remains; the node goes back to the store |
| NodeStore.NodeList.LinksConsistent | Sandbox/Source/itkCannyEdgeDetectionRecursiveGaussianImageFilter2.h:44-45 | for nodes a and b of the list, a.Next == b exactly when b.Previous == a |
| NodeStore.NodeList.ListBounded | Sandbox/Source/itkCannyEdgeDetectionRecursiveGaussianImageFilter2.h:123-126 | the list never holds more nodes than the store owns, and no node twice |
| Hysteresis.SeedIsEdge | Sandbox/Source/itkCannyEdgeDetectionRecursiveGaussianImageFilter2.h:232-233 | every pixel above the upper threshold is an edge |
| Hysteresis.EdgeExtends | Sandbox/Source/itkCannyEdgeDetectionRecursiveGaussianImageFilter2.h:235-236 | a neighbour of an edge that is above the lower threshold is an edge |
| Hysteresis.EdgeIsSeedOrLinked | Sandbox/Source/itkCannyEdgeDetectionRecursiveGaussianImageFilter2.h:60-62 | an edge is a seed, or above the lower threshold next to another edge |
| Hysteresis.BelowThresholdsIsNoEdge | Sandbox/Source/itkCannyEdgeDetectionRecursiveGaussianImageFilter2.h:79-82 | a pixel at or below both thresholds is never an edge, whatever its neighbours |
| Hysteresis.RaisingLowerKeepsEdgesWithin | Sandbox/Source/itkCannyEdgeDetectionRecursiveGaussianImageFilter2.h:251-252 | raising the lower threshold never adds an edge |
| Hysteresis.RaisingUpperKeepsEdgesWithin | Sandbox/Source/itkCannyEdgeDetectionRecursiveGaussianImageFilter2.h:248-249 | raising the upper threshold never adds an edge |
| Hysteresis.MarkUnmarked | Sandbox/Source/itkCannyEdgeDetectionRecursiveGaussianImageFilter2.h:261 | marking a pixel lowers the number of unmarked pixels by one exactly when it was unmarked |
| Hysteresis.EdgesAreMarked | Sandbox/Source/itkCannyEdgeDetectionRecursiveGaussianImageFilter2.h:235-236 | a marking that holds every seed and in which every marked pixel has its neighbours above the lower threshold marked holds every edge |
| Hysteresis.MarksAreEdges | Sandbox/Source/itkCannyEdgeDetectionRecursiveGaussianImageFilter2.h:232-236 | such a marking, if it holds only edges, holds exactly the edges |
| Hysteresis.LineBridged | Sandbox/Source/itkCannyEdgeDetectionRecursiveGaussianImageFilter2.h:60-62 | magnitudes [0,0,6,6,6,2,6,0,0,0], upper 5, lower 1: the edges are exactly pixels 2 to 6 |
| Hysteresis.LineSplit | Sandbox/Source/itkCannyEdgeDetectionRecursiveGaussianImageFilter2.h:60-62 | the same line with lower 3: pixel 5 is no edge, pixels 2, 3, 4 and 6 are |
| Hysteresis.IsolatedWeakPixel | Sandbox/Source/itkCannyEdgeDetectionRecursiveGaussianImageFilter2.h:60-62 | a weak pixel with no seed in the image is no edge |
| Linking.Visit | Sandbox/Source/itkCannyEdgeDetectionRecursiveGaussianImageFilter2.h:235-236 | visiting one neighbour pushes at most one pixel, and unmarked pixels plus queued pixels stay constant: every push marks an unmarked pixel |
| Linking.Scan | Sandbox/Source/itkCannyEdgeDetectionRecursiveGaussianImageFilter2.h:235-236 | scanning keeps unmarked plus queued constant, never shortens the queue and queues only in-bounds pixels |
| Linking.Step | Sandbox/Source/itkCannyEdgeDetectionRecursiveGaussianImageFilter2.h:235-236 | one pass strictly lowers unmarked plus queued and never raises unmarked, so edge following terminates even on closed contours |
| Linking.Follow | Sandbox/Source/itkCannyEdgeDetectionRecursiveGaussianImageFilter2.h:235-236 | passes of edge following until the worklist is empty; the buffer keeps its size, and the lexicographic measure (unmarked pixels, queued pixels) proves that the loop ends; FollowGrows, FollowSound and FollowExpanded state what it marks |
| Linking.FollowSeed | Sandbox/Source/itkCannyEdgeDetectionRecursiveGaussianImageFilter2.h:235-236 | edge following from one seed, which leaves the buffer alone when the seed is already linked; the buffer keeps its size, and FollowSeedMarks states that the seed ends marked and every earlier mark is kept |
| Linking.LinkSeeds | Sandbox/Source/itkCannyEdgeDetectionRecursiveGaussianImageFilter2.h:232-233 | the seed pass from offset k on, in buffer order; the buffer keeps its size, and LinkSeedsInvariant states what it marks |
| Linking.Linked | Sandbox/Source/itkCannyEdgeDetectionRecursiveGaussianImageFilter2.h:232-233 | the seed pass over the cleared buffer: one entry per pixel, and LinkedIsEdges states that it marks exactly the edges |
| Linking.FollowGrows | Sandbox/Source/itkCannyEdgeDetectionRecursiveGaussianImageFilter2.h:235-236 | edge following never unmarks a pixel |
| Linking.FollowSeedMarks | Sandbox/Source/itkCannyEdgeDetectionRecursiveGaussianImageFilter2.h:232-236 | following from a seed marks the seed and keeps every earlier mark |
| Linking.ScanSound | Sandbox/Source/itkCannyEdgeDetectionRecursiveGaussianImageFilter2.h:235-236 | scanning the neighbours of an edge marks and queues only edges |
| Linking.FollowSound | Sandbox/Source/itkCannyEdgeDetectionRecursiveGaussianImageFilter2.h:235-236 | edge following from edges marks only edges |
| Linking.ScanExpands | Sandbox/Source/itkCannyEdgeDetectionRecursiveGaussianImageFilter2.h:274-275 | after scanning the whole neighbourhood of a pixel, each of its neighbours above the lower threshold is marked |
| Linking.FollowExpanded | Sandbox/Source/itkCannyEdgeDetectionRecursiveGaussianImageFilter2.h:235-236 | when the worklist is empty, every marked pixel has its neighbours above the lower threshold marked |
| Linking.LinkSeedsInvariant | Sandbox/Source/itkCannyEdgeDetectionRecursiveGaussianImageFilter2.h:232-233 | the pass over the seeds leaves only edges marked, every marked pixel expanded and every seed marked |
| Linking.LinkedIsEdges | Sandbox/Source/itkCannyEdgeDetectionRecursiveGaussianImageFilter2.h:232-236 | hysteresis thresholding marks a pixel exactly when it is an edge |
| CannyEdgeDetection.CannyEdgeDetectionFilter.constructor | Sandbox/Source/itkCannyEdgeDetectionRecursiveGaussianImageFilter2.h:206 | thresholds and outside value zero, strides 3^k, centre 3^D / 2, a node store of one node per pixel and an empty list |
| CannyEdgeDetection.CannyEdgeDetectionFilter.NeighbourhoodLayout | Sandbox/Source/itkCannyEdgeDetectionRecursiveGaussianImageFilter2.h:274-275 | m_Stride[k] is 3^k and m_Center is the centre entry of the neighbourhood |
| CannyEdgeDetection.CannyEdgeDetectionFilter.SetThreshold | Sandbox/Source/itkCannyEdgeDetectionRecursiveGaussianImageFilter2.h:151-157 | threshold and upper threshold become th, lower threshold th / 2; the outside value is kept |
| CannyEdgeDetection.CannyEdgeDetectionFilter.GetThreshold | Sandbox/Source/itkCannyEdgeDetectionRecursiveGaussianImageFilter2.h:159-163 | returns the stored threshold, ignoring its argument |
| CannyEdgeDetection.CannyEdgeDetectionFilter.SetUpperThreshold | Sandbox/Source/itkCannyEdgeDetectionRecursiveGaussianImageFilter2.h:166 | stores its argument and changes no other setting |
| CannyEdgeDetection.CannyEdgeDetectionFilter.GetUpperThreshold | Sandbox/Source/itkCannyEdgeDetectionRecursiveGaussianImageFilter2.h:167 | returns the stored upper threshold |
| CannyEdgeDetection.CannyEdgeDetectionFilter.SetLowerThreshold | Sandbox/Source/itkCannyEdgeDetectionRecursiveGaussianImageFilter2.h:169 | stores its argument and changes no other setting |
| CannyEdgeDetection.CannyEdgeDetectionFilter.GetLowerThreshold | Sandbox/Source/itkCannyEdgeDetectionRecursiveGaussianImageFilter2.h:170 | returns the stored lower threshold |
| CannyEdgeDetection.CannyEdgeDetectionFilter.SetOutsideValue | Sandbox/Source/itkCannyEdgeDetectionRecursiveGaussianImageFilter2.h:173 | stores its argument and changes no other setting |
| CannyEdgeDetection.CannyEdgeDetectionFilter.GetOutsideValue | Sandbox/Source/itkCannyEdgeDetectionRecursiveGaussianImageFilter2.h:174 | returns the stored outside value |
| CannyEdgeDetection.CannyEdgeDetectionFilter.InBounds | Sandbox/Source/itkCannyEdgeDetectionRecursiveGaussianImageFilter2.h:238-239 | true exactly when every coordinate lies in [0, extent) |
| CannyEdgeDetection.CannyEdgeDetectionFilter.NeighbourIndex | Sandbox/Source/itkCannyEdgeDetectionRecursiveGaussianImageFilter2.h:274-275 | reading entry i of the neighbourhood through m_Stride gives neighbourhood entry i of the pixel |
| CannyEdgeDetection.CannyEdgeDetectionFilter.MarkAndQueue | Sandbox/Source/itkCannyEdgeDetectionRecursiveGaussianImageFilter2.h:277-278 | marks one pixel in the output and queues its index at the front of the list |
| CannyEdgeDetection.CannyEdgeDetectionFilter.QueueNeighbour | Sandbox/Source/itkCannyEdgeDetectionRecursiveGaussianImageFilter2.h:235-239 | computes Visit: a neighbour is read and written only when InBounds holds for it |
| CannyEdgeDetection.CannyEdgeDetectionFilter.ScanNeighbourhood | Sandbox/Source/itkCannyEdgeDetectionRecursiveGaussianImageFilter2.h:274-275 | computes Scan over all 2 * m_Center + 1 entries of the neighbourhood |
| CannyEdgeDetection.CannyEdgeDetectionFilter.ExpandNext | Sandbox/Source/itkCannyEdgeDetectionRecursiveGaussianImageFilter2.h:235-236 | computes Step: takes the front pixel off the list, marks it and scans its neighbourhood |
| CannyEdgeDetection.CannyEdgeDetectionFilter.FollowEdge | Sandbox/Source/itkCannyEdgeDetectionRecursiveGaussianImageFilter2.h:235-236 | computes FollowSeed and terminates; the list ends empty with every node back in the store; each queued pixel was unmarked before, so no pixel is queued twice |
| CannyEdgeDetection.CannyEdgeDetectionFilter.ClearOutput | Sandbox/Source/itkCannyEdgeDetectionRecursiveGaussianImageFilter2.h:261 | no pixel of the output is marked |
| CannyEdgeDetection.CannyEdgeDetectionFilter.FollowFromPixel | Sandbox/Source/itkCannyEdgeDetectionRecursiveGaussianImageFilter2.h:232-233 | a pixel above the upper threshold is queued and followed, any other pixel is left alone |
| CannyEdgeDetection.CannyEdgeDetectionFilter.LinkAllSeeds | Sandbox/Source/itkCannyEdgeDetectionRecursiveGaussianImageFilter2.h:232-233 | computes Linked: follows edges from every seed in buffer order; in all, edge following makes no more neighbour pushes than there are pixels (each seed is also enqueued once by the seed pass) |
| CannyEdgeDetection.CannyEdgeDetectionFilter.WriteOutside | Sandbox/Source/itkCannyEdgeDetectionRecursiveGaussianImageFilter2.h:79-82 | every pixel not marked as an edge gets OutsideValue; the marked pixels are kept |
| CannyEdgeDetection.CannyEdgeDetectionFilter.HysteresisThresholding | Sandbox/Source/itkCannyEdgeDetectionRecursiveGaussianImageFilter2.h:232-233 | each output pixel is one exactly when it is an edge and OutsideValue otherwise; the list is empty and every node is back in the store; edge following pushes each pixel at most once as a neighbour, so in all there are no more neighbour pushes than pixels (each seed is also enqueued once by the seed pass) |

The output of `HysteresisThresholding` depends only on the extent, the
candidate magnitudes, the thresholds and the outside value. Hence two runs
with the same inputs give the same output. Together with `SeedIsEdge` and
`BelowThresholdsIsNoEdge`, its contract gives the following:

- every seed is one in the output;
- every pixel at or below both thresholds holds `OutsideValue`;
- every output pixel is either one or `OutsideValue`.

## Left out

- The Gaussian smoothing, Laplacian and multiply sub-filters (lines 212-218 and 263-270) are floating-point numerics in ITK library classes. Their result, the candidate magnitudes, is an input of the filter's constructor and is only read.
- `GenerateData` (line 210) and `AllocateUpdateBuffer` (line 230) are not modelled. Their bodies are not part of this model. The constructor allocates the output buffer and the node store, and `HysteresisThresholding` is the entry point.
- `GenerateInputRequestedRegion` and `m_MaximumError` (lines 181-188 and 244-246) are pipeline region negotiation and kernel-size arithmetic.
- The `Sigma` setter and getter (lines 147-148) and `m_Sigma` are left out. They only configure the smoothing sub-filter.
- `CannyThreadStruct` and the multithreader (lines 224-227) are left out: the stage is modelled single-threaded.
- `m_ComputeCannyEdgeSlice` (line 272) belongs to the derivative computation, not to hysteresis.
- `GetNonMaximumSuppressionImage` (lines 176-179) only returns the multiply sub-filter's output.
- The factory, RTTI, concept-check, SmartPointer, copy-constructor, destructor and `PrintSelf` machinery is left out.
- The deprecation warning of `itkLegacyReplaceBodyMacro` (lines 156 and 161) and the `Modified()` time stamps of the set macros are left out.
- Pixel values and thresholds are `real`, not floating point, so `th / 2.0` is exact.
- NodeStore.NodeList.Borrow: requires a free node, whereas ITK's `ObjectStore` grows on demand. The store holds one node per pixel, and the filter's contracts prove that edge following never needs more.
- The store's and the list's internals (`ObjectStore`, `SparseFieldLayer`) are not ITK's. They are an arena with a free stack, with node numbers standing for node addresses.
- The implementation file that the header includes (line 285) is not part of this model. The details it fixes are taken from ITK's Canny filter:
  - strict comparisons with the thresholds;
  - an output cleared to zero with one as the edge marker;
  - the full 3^D neighbourhood, visited in entry order and pushed at the front of the list.

  The final pass that writes `OutsideValue` follows the doc comment at lines 79-82.
- The candidate magnitudes are a flat sequence addressed by `Offset`, not an ITK image with iterators. The boundary condition of the neighbourhood iterator (lines 112-121) never matters: `InBounds` excludes every neighbour outside the image before it is read.
- The count of queued pixels that `FollowEdge`, `LinkAllSeeds` and `HysteresisThresholding` return is ghost. It counts the neighbour pushes of edge following only, and exists to state that edge following pushes each pixel at most once as a neighbour. The seed pass enqueues every seed once more, without looking at its mark; a seed that is already linked is dequeued again at once.
