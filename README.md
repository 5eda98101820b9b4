# Subcomunas: a verified model of the comuna partitioning pipeline

The repository is a pair of Streamlit apps that split each comuna (district)
of Buenos Aires into sub-regions ("subcomunas"). Both apps run the same
pipeline:

1. keep the city blocks (manzanas) that intersect the comuna and clip them to it;
2. assign each block a group:
   - with fewer blocks than `n_partes`, every block gets the float label 0;
   - otherwise k-means labels them;
3. build one record per group present, in ascending group order, with the
   comuna id, the label `"Comuna {id} - Parte {g+1}"` and the union of the
   group's blocks.

`poligono2.py` runs the pipeline for one chosen comuna. It serves the result
from a per-comuna cache directory when it can. Otherwise it builds the
result and writes it, but only when there are parts. `poligonos1.py` runs
the pipeline for every comuna in one loop. In that version `dividir_manzanas`
writes its columns into the frame it is given. Both apps then offer
"Todas" (all parts) or a single part label as the displayed selection.

The model has these modules:

- `Geo` (`geo.dfy`) covers the foreign libraries. Geometry is an abstract
  type. intersects, clip, union and centroid are function values of a
  `Lib`. k-means is a function whose only contract (`Lib.Valid`) is that,
  for 1 <= k <= |points|, it gives one label in `[0, k)` per point.
- `Text` (`text.dfy`) covers decimal rendering of naturals, as Python
  prints an `int`, with its inverse.
- `Subcomunas` (`subcomunas.dfy`) holds the shared pipeline:
  - the filter;
  - the labelling rule;
  - the group keys in `groupby` order;
  - the label text;
  - the merge loop;
  - one comuna end to end;
  - selection by label.

  The group column carries its numpy dtype (`Float64` from `np.zeros`,
  `Int32` from `fit_predict`). The dtype decides whether group `g` prints
  as `g+1` or as `g+1`.0.
- `Poligono2` (`poligono2.dfy`) is the cached single-comuna app. The cache
  directory is a class `SubcomunaCache` with a `map` from comuna id to the
  stored parts, plus a ghost count of pipeline runs.
- `Poligonos1` (`poligonos1.dfy`) is the whole-city app:
  - a `GeoFrame` class whose `Divide` adds columns in place;
  - the loop over the comunas;
  - the comuna and subparte options;
  - the selection.

Two behaviours of the code are worth stating outright:

- **Empty results are not cached.** Nothing is written when no block meets
  the comuna, so such a comuna is rebuilt on every request
  (`Poligono2.SubcomunaCache.RequestTwice`).
- **Label text.** The code writes "Comuna {id} - Parte {g+1}". In the
  degenerate branch that is "Parte 1.0", because `np.zeros` yields floats.

## Model

| member | source | states |
|---|---|---|
| Text.NatTextRoundTrip | poligono2.py:70 | the decimal rendering of an id or group number reads back as that number |
| Text.NatTextInjective | poligono2.py:70 | distinct numbers render as distinct numerals |
| Subcomunas.FilterClip | poligono2.py:57-58 | the result is empty exactly when no block intersects the comuna, and is never longer than the block list; `FilterClipIsKeptRows` fixes its exact length and order |
| Subcomunas.FilterClipElements | poligonos1.py:56-57 | every kept geometry is the clip of an intersecting block, and the clip of every intersecting block is kept |
| Subcomunas.KeptRows | poligono2.py:57 | the rows `manzanas.intersects(mask)` selects; every index is a row of the frame |
| Subcomunas.KeptRowsExact | poligono2.py:57 | the kept rows are strictly ascending, each meets the mask, and every row that meets the mask is kept |
| Subcomunas.FilterClipIsKeptRows | poligono2.py:57-58 | the filter holds exactly one clip per kept row, in row order, so its length is the number of blocks that meet the comuna |
| Subcomunas.DegenerateExactly | poligono2.py:39-40 | on the filtered blocks, the float-zeros branch runs exactly when fewer than `n_partes` blocks meet the comuna |
| Subcomunas.Centroids | poligono2.py:36-37 | one centroid per block, in order |
| Subcomunas.AssignLabels | poligono2.py:39-43 | one label per point, each below `n_partes`; with fewer points than `n_partes` every label is 0 and the dtype is float; otherwise the labels are k-means' and the dtype is int |
| Subcomunas.Divide | poligono2.py:34-46 | the `grupo` column of the copy has exactly one entry per block in `[0, n_partes)`; the degenerate branch runs exactly when there are fewer blocks than `n_partes` |
| Subcomunas.SortedDistinct | poligono2.py:66 | the group keys `groupby` visits are strictly ascending and are exactly the values present in the column |
| Subcomunas.Members | poligono2.py:66 | a group is non-empty exactly when its key occurs in the column, and is never longer than the column |
| Subcomunas.MembersExact | poligono2.py:66 | the group of `k` contains every block labelled `k`, and each of its blocks is one labelled `k` |
| Subcomunas.GroupsPartitionBlocks | poligono2.py:66 | the groups of all the keys together hold every clipped block exactly once (as a multiset) |
| Subcomunas.MembersOfUniformLabels | poligonos1.py:40-41 | when every block is labelled 0, group 0 is all of the blocks |
| Subcomunas.KeyTextHasPoint | poligono2.py:70 | a group number prints with a decimal point exactly when the column is float |
| Subcomunas.KeyTextInjective | poligono2.py:70 | the printed group number determines both the dtype and the number |
| Subcomunas.KeyText | poligono2.py:70 | no ensures of its own: `f'{grupo_id + 1}'`; `KeyTextHasPoint` and `KeyTextInjective` fix its text |
| Subcomunas.LabelPrefix | poligono2.py:70 | no ensures of its own: the fixed text "Comuna {id} - Parte "; `PrefixDeterminesComuna` and `PrefixedIsNotTodas` fix what it determines |
| Subcomunas.GroupLabel | poligono2.py:70 | no ensures of its own: the `subparte` f-string; `LabelExample`, `DegenerateLabel` and `GroupLabelInjective` fix its text |
| Subcomunas.PrefixedIsNotTodas | poligono2.py:94 | no string that starts with a label prefix equals "Todas" |
| Subcomunas.PrefixDeterminesComuna | poligono2.py:70 | two label prefixes "Comuna {id} - Parte " that both begin one string name the same comuna |
| Subcomunas.GroupLabelInjective | poligono2.py:70 | a label determines the comuna, the dtype and the group |
| Subcomunas.GroupLabelIsNotTodas | poligono2.py:92 | no group label collides with the "Todas" option |
| Subcomunas.LabelExample | poligono2.py:70 | comuna 7, group 2 prints "Comuna 7 - Parte 3"; the degenerate group prints "Comuna 7 - Parte 1.0" |
| Subcomunas.DegenerateLabel | poligono2.py:40 | the degenerate float group 0 prints as "Comuna {id} - Parte 1.0" |
| Subcomunas.MergeGroups | poligono2.py:65-72 | the loop appending one record per group produces exactly the ascending list of group records |
| Subcomunas.MergedParts | poligono2.py:65-72 | no ensures of its own: one record per group key, ascending; `MergedPartsCoverGroups`, `MergedPartsAscending`, `MergedPartsWellLabelled` and `MergedPartsPartition` fix it, and `MergeGroups` is proved equal to it |
| Subcomunas.MergedPartsCoverGroups | poligono2.py:66-72 | a record with a group's label, comuna and union exists exactly when some block has that group |
| Subcomunas.MergedPartsAscending | poligonos1.py:64-70 | records come in strictly ascending group order, and each one's group is non-empty |
| Subcomunas.MergedPartsWellLabelled | poligono2.py:68-70 | every record carries the comuna id and its label prefix, and no two records share a label |
| Subcomunas.MergedPartsPartition | poligono2.py:66-67 | one record per distinct key; each geometry is the union of its non-empty group, and the groups partition the clipped blocks |
| Subcomunas.ComunaPartsShape | poligono2.py:56-72 | a comuna gets no part exactly when no block meets it, otherwise at most `n_partes` parts, all of that comuna, with distinct labels |
| Subcomunas.ComunaParts | poligono2.py:56-72 | no ensures of its own: filter, then label and merge unless nothing is left; `ComunaPartsShape` and `DegenerateSinglePart` fix its shape |
| Subcomunas.DegenerateSinglePart | poligono2.py:39-40 | with 1 <= blocks < `n_partes` the result is the single part "Comuna {id} - Parte 1.0" holding the union of all blocks |
| Subcomunas.WithSubparte | poligono2.py:97 | the selection keeps exactly the parts whose label equals the chosen one |
| Subcomunas.SelectUniqueLabel | poligono2.py:97 | with distinct labels, choosing a part's label selects that part alone |
| Subcomunas.WithSubparteAbsent | poligono2.py:97 | choosing a label that no part carries selects nothing |
| Poligono2.ComunaGeometry | poligono2.py:56 | the mask is the geometry of the first row with the chosen id; the caller must pass an id that is present |
| Poligono2.SubcomunaCache.constructor | poligono2.py:50-52 | the cache starts from the directory as found, with no build run; it is valid exactly when every file found holds what the cache writes |
| Poligono2.SubcomunaCache.LoadOrBuild | poligono2.py:49-76 | a hit returns the stored parts and runs nothing; a miss runs the pipeline once, stores the result only when it is non-empty, and keeps every stored entry a non-empty list of that comuna's uniquely labelled parts |
| Poligono2.SubcomunaCache.RequestTwice | poligono2.py:53-76 | after a non-empty answer a repeated request returns the same parts without rebuilding, whatever `n_partes` is; after an empty answer it rebuilds and is empty again |
| Poligono2.ComunaOptions | poligono2.py:83 | the comuna options are strictly ascending and are exactly the ids in the comunas frame |
| Poligono2.SubparteOptions | poligono2.py:91-92 | no ensures of its own: "Todas" then the labels of the parts; `Poligono2.SelectOption` fixes its length and what each option selects |
| Poligono2.Select | poligono2.py:94-97 | no ensures of its own: all parts for "Todas", otherwise those with the chosen label; `Poligono2.SelectOption` fixes what each option shows |
| Poligono2.SelectOption | poligono2.py:91-97 | option 0 ("Todas") shows every part and option k shows exactly the k-th part |
| Poligonos1.GeoFrame.Divide | poligonos1.py:35-47 | adds the centroid_x, centroid_y and grupo columns in place, keeps the rows and every other column, and grupo is the labelling rule applied to the centroids |
| Poligonos1.CentroidXs | poligonos1.py:36 | one centroid x per block |
| Poligonos1.CentroidYs | poligonos1.py:37 | one centroid y per block |
| Poligonos1.GenerateSubcomunas | poligonos1.py:51-73 | the nested loop with `continue` produces the parts of every comuna in frame order, skipping comunas without blocks |
| Poligonos1.CityParts | poligonos1.py:51-73 | no ensures of its own: each comuna's parts in frame order; `CityPartsOfComuna`, `CityPartsOfAbsent`, `CityPartsOfPresent` and `CityLabelsUnique` fix it, and `GenerateSubcomunas` is proved equal to it |
| Poligonos1.OfComuna | poligonos1.py:93 | filtering by comuna keeps only parts of that comuna, and keeps every part of that comuna |
| Poligonos1.ComunaOptions | poligonos1.py:82 | the comuna options are strictly ascending and are exactly the comunas that have a part |
| Poligonos1.SubparteOptions | poligonos1.py:85-86 | no ensures of its own: "Todas" then the labels of the chosen comuna's parts; `Poligonos1.SelectOption` and `OptionsOf` fix it |
| Poligonos1.Select | poligonos1.py:92-95 | no ensures of its own: the chosen comuna's parts for "Todas", otherwise the parts with the chosen label; `Poligonos1.SelectOption` and `CitySelectLabel` fix what it shows |
| Poligonos1.CityPartsWellLabelled | poligonos1.py:64-70 | every part of the city list carries its own comuna's label prefix |
| Poligonos1.CityPartsOfComuna | poligonos1.py:53-70 | with distinct ids, the parts listed for a comuna are exactly those built for its row |
| Poligonos1.CityPartsOfAbsent | poligonos1.py:53-60 | a comuna that no row has gets no part |
| Poligonos1.CityPartsOfPresent | poligonos1.py:53-70 | a comuna has some part exactly when a row with its id meets some block |
| Poligonos1.ComunaOptionsExact | poligonos1.py:82 | a comuna is offered exactly when some row with its id meets a block, so comunas without blocks are never offered |
| Poligonos1.PartsPerComuna | poligonos1.py:62 | every offered comuna has between 1 and 6 parts, because the default `n_partes=6` is used |
| Poligonos1.WithSubparteOfComuna | poligonos1.py:95 | selecting a label of comuna c finds only parts of comuna c |
| Poligonos1.SelectOption | poligonos1.py:85-95 | the options are "Todas" then the comuna's labels in order; option 0 shows all of the comuna's parts; option k shows exactly its k-th part |
| Poligonos1.OptionsOf | poligonos1.py:85-95 | in any list where every part carries its own comuna's prefix and comuna c's parts are uniquely labelled, the options are "Todas" then those labels in order, option 0 shows all of them and option k exactly the k-th |
| Poligonos1.CitySelectLabel | poligonos1.py:95 | a part's label selects that part alone from the whole city list |
| Poligonos1.CityLabelsUnique | poligonos1.py:64-70 | with distinct ids, no two parts of the city list share a label |
| Poligonos1.UniqueAppend | poligonos1.py:66-70 | appending one comuna's parts to the parts of other comunas keeps labels distinct |
| Poligonos1.OfComunaAppend | poligonos1.py:93 | filtering a concatenation by comuna is the concatenation of the filtered pieces |

## Left out

- Data loading (`cargar_datos`) is not modelled: the remote GeoJSON reads, `dissolve`, `to_crs` and `simplify` are network I/O and library work. The comunas and blocks are parameters.
- Geometry internals are not modelled. Centroid, intersects, clip and `unary_union` are floating-point geometry in shapely/geopandas and stay uninterpreted functions of `Geo.Lib`.
- k-means numerics are not modelled, including its convergence and `random_state=0`. Only the output contract is assumed, and the fixed seed makes k-means a fixed function of its input. `n_partes >= 1` is required, since sklearn rejects zero clusters (both apps pass 6).
- File-system behaviour is not modelled: `os.makedirs`, `os.path.exists`, `read_file`, `to_file` and GeoJSON fidelity. The cache directory is a map, and reading a file back gives exactly what was written.
- Streamlit is not modelled: `st.cache_data`, page set-up and the sidebar widgets. A widget's choice is an index into its option list.
- Folium rendering and the reprojection to EPSG:4326 are not modelled, nor is the CRS that the records carry.
- Per-key locking and atomic cache writes are not modelled: the code has neither, and they are a concurrency concern.
- Subcomunas.FilterClip: keeps the clip of every intersecting block, in frame order. geopandas `clip` does not promise to keep row order, can drop a row whose clipped geometry comes out empty, and can change geometry types; none of these is modelled. Since k-means is an arbitrary function of its points here, no property proved depends on that order.
- Subcomunas.KeyText: prints only integral floats (`g.0`), which is all that `np.zeros(...) + 1` produces. General float printing is not modelled.
- Subcomunas.LabelPrefix: comuna ids are taken to be non-negative integers printed in decimal. A float-typed id column would print "1.0" and is not modelled.
- Poligonos1.GenerateSubcomunas: the blocks frame handed to `dividir_manzanas` is modelled with only its geometry. Other block attribute columns do not influence the parts and are not carried.
- Poligonos1.GenerateSubcomunas: when no comuna meets any block the list is empty, and the app then fails: `gpd.GeoDataFrame([], crs=...)` (poligonos1.py:72) has no geometry column to carry a CRS, and `to_crs` and `['comuna']` (poligonos1.py:77, 82) would raise. The model returns the empty list and offers no comunas instead of modelling that failure.
- Poligono2.SubcomunaCache.LoadOrBuild: the empty result's column names and CRS are not modelled. It is an empty list of `Part` records.
