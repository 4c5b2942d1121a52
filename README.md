# Parking availability: unpredictable regions and node pairs

This project models the two pieces of sequential logic in the parking-availability
plotting script `Parking_Availability_Visualization/backup.py`:

- **Unpredictable-region detection** (`regions.dfy`, module `Regions`). A volatility
  mask has one boolean per time step, `true` where the series is locally unpredictable.
  `find_unpredictable_regions` compresses the mask into half-open index intervals
  `[start, end)`, one per maximal run of `true`. The model is a loop method,
  `FindUnpredictableRegions`. It keeps the same state as the source: an `inRegion`
  flag, a pending `start`, and the list of closed regions. The method is proved
  against `IsRegionsOf`, which has four parts:
  - every region is a non-empty interval inside the mask;
  - consecutive regions are separated by at least one index;
  - an index is covered exactly when the mask is set there;
  - no region can be extended at either end.

  `RegionsUnique` proves that a mask has only one list satisfying `IsRegionsOf`. So the
  scan is deterministic, and the lemmas about the all-false mask, the all-true mask,
  the worked example and the region count hold for whatever the scan returns. Before
  the scan, the plotting code combines the masks of two nodes with an element-wise
  `or`. That step is `CombineMasks`.
- **Pairing of nodes** (`pairs.dfy`, module `Pairs`). `split_nodes_into_pairs` checks
  that there are at least `2 * num_pairs` nodes and raises `ValueError` if not. It
  then builds the pairs `(nodes[2i], nodes[2i+1])` in a loop. The model is the method
  `SplitNodesIntoPairs`. It returns a `Result`, and the `ValueError` becomes
  `Err(NotEnoughNodes)`. A negative `num_pairs` raises nothing in the source and
  yields an empty list, because `range` of a negative number is empty. The model
  does the same.

## Model

| member | source | states |
|---|---|---|
| `Regions.FindUnpredictableRegions` | Parking_Availability_Visualization/backup.py:62-81 | the returned regions are non-empty intervals inside the mask, strictly increasing with a gap between neighbours, cover exactly the set indices, and are maximal at both ends |
| `Regions.RegionsUnique` | Parking_Availability_Visualization/backup.py:62-81 | any two region lists satisfying that characterisation for one mask are equal, so the result is determined by the mask and the same mask always gives the same list |
| `Regions.GapIsFalse` | Parking_Availability_Visualization/backup.py:73-78 | property of the region characterisation, used to prove uniqueness: every index before the first region, between two regions or after the last region is unset |
| `Regions.RegionIsTrue` | Parking_Availability_Visualization/backup.py:73-78 | property of the region characterisation, used to prove uniqueness: every index inside a region is set, and a region starts strictly after the previous region's end |
| `Regions.SameRegionAt` | Parking_Availability_Visualization/backup.py:73-78 | step of the uniqueness proof: two region lists of one mask that agree on where the gap before region k begins have the same region k |
| `Regions.SamePrefix` | Parking_Availability_Visualization/backup.py:72-78 | step of the uniqueness proof, by induction on k: two region lists of one mask agree on their first k regions |
| `Regions.StartLowerBound` | Parking_Availability_Visualization/backup.py:72-78 | region k starts at index 2k or later |
| `Regions.RegionCountBound` | Parking_Availability_Visualization/backup.py:69-81 | a mask of N steps has at most (N + 1) / 2 regions |
| `Regions.NoRegionsWhenAllFalse` | Parking_Availability_Visualization/backup.py:69-81 | an empty mask or a mask with no step set has no regions |
| `Regions.OneRegionWhenAllTrue` | Parking_Availability_Visualization/backup.py:79-80 | a non-empty mask with every step set has the single region [0, N) |
| `Regions.ExampleCover` | Parking_Availability_Visualization/backup.py:72-80 | the regions [2, 4) and [5, 6) cover exactly the set steps of F F T T F T F |
| `Regions.ExampleRegions` | Parking_Availability_Visualization/backup.py:69-81 | the mask F F T T F T F has exactly the regions [2, 4) and [5, 6) |
| `Regions.ScanExampleMask` | Parking_Availability_Visualization/backup.py:62-81 | running the scan on F F T T F T F returns [2, 4) and [5, 6) |
| `Regions.AppendRegion` | Parking_Availability_Visualization/backup.py:78 | appending a closed run that starts after every earlier region and cannot be extended keeps the list separated and maximal, and adds exactly the run's indices to the covered ones |
| `Regions.CoveredAppend` | Parking_Availability_Visualization/backup.py:78 | appending a region adds exactly its indices to the covered ones |
| `Regions.CombinedRegionsCoverEither` | Parking_Availability_Visualization/backup.py:132-134 | the regions of `CombineMasks(a, b)`, the element-wise `or` of the two masks, cover an index exactly when the regions of `a` or the regions of `b` cover it |
| `Pairs.SplitNodesIntoPairs` | Parking_Availability_Visualization/backup.py:32-47 | `numPairs` defaults to 4 as in the source; fails exactly when fewer than 2 * num_pairs nodes are given; otherwise returns max(num_pairs, 0) pairs, pair i being (nodes[2i], nodes[2i+1]) |
| `Pairs.PairsUsePrefix` | Parking_Availability_Visualization/backup.py:43-47 | the pairs use exactly the first 2 * num_pairs nodes, each once and in order: flattened they give back that prefix |
| `Pairs.SplitEightNodes` | Parking_Availability_Visualization/backup.py:177-178 | the plot's split of its eight nodes into four pairs succeeds and gives (0,1) (2,3) (4,5) (6,7) |

## Left out

- `compute_unpredictability` (backup.py:49-60) is not modelled. It computes a rolling
  standard deviation in floating point with pandas and compares it with a float threshold.
  The model starts from the boolean mask that this step produces. The pandas default
  gives NaN, filled with 0, at the edges of the window. A shrinking edge window is not
  used.
- `generate_sample_data` (backup.py:10-30) is not modelled: it is seeded NumPy
  randomness and floating-point synthesis.
- `plot_time_series_pairs` (backup.py:84-164) is not modelled, because it is
  matplotlib rendering and file output. Only the `|` of two masks at line 134 is kept,
  as `CombineMasks`. In the source, the call of the region scan on that mask is
  commented out (lines 136-138).
- `main` (backup.py:167-185) is printing and wiring. Only its call to the pairing
  function is kept, as `SplitEightNodes`.
- `dashboard-code/dashboard.py` and `dashboard-code/old.py` are not modelled. They
  hold Streamlit, folium and plotly UI glue, CSV loading and random data generators.
- CombineMasks: requires masks of equal length. NumPy raises an error for other lengths,
  unless it broadcasts a mask of length 1. In the source, both masks come from columns
  of one data frame, so they always have the same length.
- SplitNodesIntoPairs: Python lists are passed by reference. The model takes a sequence
  value, so "the input list is not modified" holds by construction and is not stated
  as a separate contract. A non-integer `num_pairs` is not modelled.
