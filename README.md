# Overview table rows of the API catalog

This project models the table-data logic of the API catalog overview page,
`src/Utilities/overviewRows.js`. That logic turns catalog entries into the rows
of a four-column tree table: application name, API endpoint, API versions and
a download button. The model covers these pieces of the file:

- `indexToKey`: the column-to-property table.
- `rowMapper`: the cells of one row, kept as data (link targets, texts,
  values), not markup.
- `emptyTable`: the one-row empty state.
- `sortRows`: the column comparator.
- `buildRows`: sort in place, take one page, and build a primary row and
  its child rows for every entry.
- `filterRows`: the free-text filter.

JavaScript values are modelled explicitly:

- A property that may be missing is an `Option`.
- A string is truthy when it is present and non-empty.
- `a || b` keeps the first truthy operand.
- A template literal renders `undefined` as the text `undefined`.
- The comparator returns `undefined` (`None`) when the left operand's value is
  missing. `Array.prototype.sort` treats that as `0`.
- `slice` counts negative arguments from the end.

Modules:

- `Strings` holds lower-casing, the case-insensitive three-way comparison and
  `indexOf`.
- `Catalog` holds the entry datatypes and the JavaScript value rules.
- `Sorting` holds the comparator and the in-place sort. The sort is an
  insertion sort on an `array`. It is proved to leave a permutation of the
  entries with every neighbouring pair in order. Every pair is in order only
  when every entry has the compared value.
- `RowMapper` holds the cells of a row.
- `Filtering` holds the filter predicate.
- `RowBuilder` holds the paging, the row groups, their flattening and
  `buildRows` itself.

Behaviour of the code worth knowing:

- The name link carries only one query parameter, `?url=`.
- `selected` is read from `selectedRows[title]` only.
- `noDetail` is `!version && !api.url`.
- The link's version part repeats the name: `/<name>/<name>/<version>`.
- The filter's last candidate is `api.apiName`, not the entry's own `apiName`.
- A child row's `treeParent` is the owner's index in the page slice (see
  Findings).

## Model

| member | source | states |
|---|---|---|
| `Catalog.Or` | src/Utilities/overviewRows.js:168 | JavaScript's `or` of two strings is truthy exactly when one operand is; it is `a` when `a` is truthy and `b` otherwise |
| `Catalog.Interpolate` | src/Utilities/overviewRows.js:53-57 | a template literal shows a present string as itself and a missing one as `undefined` |
| `Catalog.IndexToKey` | src/Utilities/overviewRows.js:26 | column 0 is the blank name, 2 is `appName`, 3 is `version`; every other index, in range or not, gives the default `title`; no column sorts on `apiName` directly |
| `Strings.Lower` | src/Utilities/overviewRows.js:214 | lower-casing keeps the length and lowers each character in place |
| `Strings.LowerOfUpper` | src/Utilities/overviewRows.js:214 | lower-casing forgets the case a string was written in, and lower-casing twice changes nothing |
| `Strings.LexCompare` | src/Utilities/overviewRows.js:135-140 | the comparison is -1, 0 or 1, and 0 exactly when the strings are equal |
| `Strings.LexCompareAntisymmetric` | src/Utilities/overviewRows.js:135-140 | swapping the operands negates the comparison |
| `Strings.LexCompareTransitive` | src/Utilities/overviewRows.js:135-140 | "not after" is transitive |
| `Strings.CompareIgnoringCase` | src/Utilities/overviewRows.js:135-140 | the base-sensitivity comparison is -1, 0 or 1, and 0 exactly when the lower-cased strings are equal |
| `Strings.CompareIgnoringCaseSwap` | src/Utilities/overviewRows.js:135-140 | swapping the operands negates the case-insensitive comparison |
| `Strings.IndexOf` | src/Utilities/overviewRows.js:214 | `indexOf` is -1 exactly when the needle does not occur; otherwise it is the first position where it occurs |
| `Strings.IndexOfEmpty` | src/Utilities/overviewRows.js:218 | the empty needle is found at position 0 |
| `Sorting.SortKeyOf` | src/Utilities/overviewRows.js:132-133 | with key `appName`, an object with a truthy `apiName` is compared on `apiName`; every other object and key uses the key itself |
| `Sorting.CompareEntries` | src/Utilities/overviewRows.js:135-140 | `a[key]?.localeCompare(b[key])` is undefined exactly when `a`'s value is missing; otherwise it is -1, 0 or 1, and 0 exactly when `a`'s value equals `b`'s rendered value ignoring case |
| `Sorting.SortRows` | src/Utilities/overviewRows.js:131-141 | the result is `undefined` exactly when the left operand's value is missing (the second entry when descending); otherwise it is -1, 0 or 1, and 0 exactly when both values are equal ignoring case |
| `Sorting.DescendingSwapsOperands` | src/Utilities/overviewRows.js:134-140 | descending order is ascending order with the operands swapped |
| `Sorting.AppNameSortsOnApiName` | src/Utilities/overviewRows.js:132-140 | on the `appName` column, two entries with truthy `apiName` compare their `apiName`s ignoring case, in either direction |
| `Sorting.SortRowsIgnoresCase` | src/Utilities/overviewRows.js:135-140 | upper-casing the compared titles never changes the comparison |
| `Sorting.Order` | src/Utilities/overviewRows.js:152-158 | the comparator as `sort` reads it: -1, 0 or 1, the comparator's value when it has one and 0 when it is undefined |
| `Sorting.OrderNeverBothPositive` | src/Utilities/overviewRows.js:152-158 | whatever fields are missing, the comparator never says both "a after b" and "b after a" |
| `Sorting.OrderTransitive` | src/Utilities/overviewRows.js:152-158 | among entries that all have the compared value, the comparator's order is transitive |
| `Sorting.AdjacentOrderedIsSorted` | src/Utilities/overviewRows.js:151-159 | when every entry has the compared value, neighbour order implies that every pair is in order |
| `Sorting.InsertAt` | src/Utilities/overviewRows.js:151-159 | one insertion step extends the ordered prefix by one: the prefix holds the same entries as before, and everything after it is untouched |
| `Sorting.SortedPermutationUnique` | src/Utilities/overviewRows.js:151-159 | when every entry has the compared value and no two tie ignoring case, two ascending orders of the same entries are the same sequence |
| `Sorting.ReversedDescendingIsAscending` | src/Utilities/overviewRows.js:134-140 | a descending order read backwards is an ascending order |
| `Sorting.DescendingReversesAscending` | src/Utilities/overviewRows.js:134-140 | when every entry has the compared value and no two tie ignoring case, the descending order of the entries is exactly the ascending order reversed |
| `Sorting.SortByColumn` | src/Utilities/overviewRows.js:151-159 | the in-place sort leaves a permutation of the entries with every neighbouring pair in order, and all pairs in order when every entry has the compared value |
| `RowMapper.FirstVersion` | src/Utilities/overviewRows.js:94 | `versions?.[0]` is present exactly when there is a non-empty versions list, and is then its first element |
| `RowMapper.LinkPath` | src/Utilities/overviewRows.js:53-57 | every link starts with `/<name>`; without versions, or with first version `v1`, it is `/<name>` followed by `?url=<url>` when the URL is truthy; an empty versions list gives `/<name>/<name>/`, then the same query |
| `RowMapper.LinkPathDefaultVersion` | src/Utilities/overviewRows.js:53-57 | with first version `v1` and no URL, the link is the bare `/<name>` |
| `RowMapper.LinkPathNamedVersion` | src/Utilities/overviewRows.js:53-57 | any other first version gives the link head `/<name>/<name>/<version>`, which contains `/<version>`; the link is that head, followed by `?url=<url>` when the URL is truthy |
| `RowMapper.LinkPathCarriesUrl` | src/Utilities/overviewRows.js:57 | a truthy URL always ends the link as `?url=<url>` |
| `RowMapper.Badges` | src/Utilities/overviewRows.js:80-85 | one badge per version, in order, each showing its version and linking to `/<name>/<version>` |
| `RowMapper.SelectedFlag` | src/Utilities/overviewRows.js:46 | `selected` is `selectedRows[title].isSelected` (a missing title looks up `"undefined"`), and undefined when there is no such record |
| `RowMapper.MapRow` | src/Utilities/overviewRows.js:39-102 | a mapped row has four cells, the selection flag of its title, and no tree properties |
| `RowMapper.MapRowCells` | src/Utilities/overviewRows.js:47-100 | the name cell links exactly when versions or a truthy URL exist, and then to the link path; the endpoint is `/api/<name>` with versions, else the URL, else empty; the versions cell shows one badge per version; the download cell passes the name, the first version and the URL |
| `Filtering.KeyedValues` | src/Utilities/overviewRows.js:211-213 | the keyed candidates are the blank name's (missing) value, `title`, `appName` and `version`, in column order |
| `Filtering.SubAppValues` | src/Utilities/overviewRows.js:204-207 | the `sub_apps` fold lists each sub-app's title then its id, in order |
| `Filtering.OtherValues` | src/Utilities/overviewRows.js:200-208 | the remaining candidates, before `.filter(Boolean)`, are the frontend title, each frontend path, each sub-app's title and id in order, and finally `api.apiName` |
| `Filtering.Compact` | src/Utilities/overviewRows.js:200-209 | `.filter(Boolean)` keeps exactly the present, non-empty values |
| `Filtering.CompactAppend` | src/Utilities/overviewRows.js:209 | `.filter(Boolean)` of two lists laid end to end is the filtered lists laid end to end, so the kept values keep their order |
| `Filtering.SomeTruthyMatches` | src/Utilities/overviewRows.js:211-215 | true exactly when some truthy keyed value contains the filter, ignoring case |
| `Filtering.SomeMatches` | src/Utilities/overviewRows.js:216-219 | true exactly when some remaining value contains the filter, ignoring case |
| `Filtering.FilterRows` | src/Utilities/overviewRows.js:199-221 | the filter accepts a row exactly when the lower-cased filter occurs in the lower-cased form of one of its non-empty candidate values |
| `Filtering.FilterIgnoresCase` | src/Utilities/overviewRows.js:214 | typing the filter in upper or lower case never changes the verdict |
| `Filtering.EmptyFilterMatchesAnyCandidate` | src/Utilities/overviewRows.js:210-220 | the empty filter accepts exactly the rows with at least one non-empty candidate |
| `Filtering.EmptyTitleIsMissingTitle` | src/Utilities/overviewRows.js:213 | an empty title and a missing title give the same verdict, because falsy values never match |
| `RowBuilder.EmptyTable` | src/Utilities/overviewRows.js:104-129 | the empty state is one row with a single cell spanning four columns, not selected and not a child |
| `RowBuilder.RelativeIndex` | src/Utilities/overviewRows.js:160 | a `slice` bound is clamped to the sequence; a negative bound counts from the end |
| `RowBuilder.Slice` | src/Utilities/overviewRows.js:160 | `slice` yields the elements between the two clamped bounds, in order, and nothing when they cross |
| `RowBuilder.PageWindow` | src/Utilities/overviewRows.js:160 | page `p` is the window from `(p-1)*perPage` up to `min(p*perPage, length)`, and empty when it starts past the end |
| `RowBuilder.TreeKey` | src/Utilities/overviewRows.js:172 | the tree key is the frontend title when it is truthy, else the entry's title |
| `RowBuilder.Includes` | src/Utilities/overviewRows.js:171 | undefined without an opened list; otherwise true exactly when the key is present and in the list |
| `RowBuilder.PrimaryRow` | src/Utilities/overviewRows.js:161-177 | a primary row has no `treeParent`; `noDetail` exactly when there is no version and no URL; `subItems` and `isTreeOpen` only with sub-items, open exactly when the tree key is in `openedRows`; its cells and selection are the mapped row's for `apiName`, or `appName` when `apiName` is falsy |
| `RowBuilder.ChildRow` | src/Utilities/overviewRows.js:179-189 | a child row points at its parent, carries no `noDetail`, `isTreeOpen` or `subItems`, shows the mapped cells for `apiName`, or the sub-item's key when `apiName` is falsy, and takes its selection flag from the sub-item's title |
| `RowBuilder.ChildRows` | src/Utilities/overviewRows.js:178-191 | one child row per sub-item, in sub-item order |
| `RowBuilder.EntryRows` | src/Utilities/overviewRows.js:161-192 | an entry's group is its primary row followed by its child rows, one per sub-item |
| `RowBuilder.Flatten` | src/Utilities/overviewRows.js:193 | `.flat()` holds exactly the elements of the groups |
| `RowBuilder.FlattenAt` | src/Utilities/overviewRows.js:193 | after `.flat()`, element `k` of group `i` sits right after all elements of the groups before it |
| `RowBuilder.FlattenGroupsLength` | src/Utilities/overviewRows.js:193 | the flattened groups have one row per entry plus one per sub-item |
| `RowBuilder.PageRows` | src/Utilities/overviewRows.js:160-193 | a page gives as many rows as it has entries plus sub-items |
| `RowBuilder.PrimaryRowsInPageOrder` | src/Utilities/overviewRows.js:161-177 | each entry's primary row starts its group, after the groups of the entries before it, in page order |
| `RowBuilder.ChildRowsFollowOwner` | src/Utilities/overviewRows.js:178-193 | child `k` of entry `i` sits right after the entry's primary row and its earlier children, with `treeParent` equal to `i` |
| `RowBuilder.TreeParentsInPage` | src/Utilities/overviewRows.js:161-191 | a row has a `treeParent` exactly when it has no `noDetail`, and every `treeParent` is a position of the page slice |
| `RowBuilder.RenderRows` | src/Utilities/overviewRows.js:150-196 | no entries give the empty state; otherwise the page gives its entries' rows, as many as entries plus sub-items |
| `RowBuilder.PastTheEndIsEmpty` | src/Utilities/overviewRows.js:160 | a page past the end of a non-empty list gives no rows at all, not the empty state |
| `RowBuilder.BuildRows` | src/Utilities/overviewRows.js:143-197 | the caller's array is left a permutation of itself, in column order; the result is the empty state for no entries, otherwise the rows of the requested page of the sorted entries |
| `RowBuilder.TreeParentMissesOwner` | src/Utilities/overviewRows.js:188 | on a two-entry page whose entries each have one sub-item, the second child names position 1, which holds the first entry's child, while its owner sits at position 2 |
| `RowBuilder.LinkedPageRows` | src/Utilities/overviewRows.js:178-193 | the corrected layout has as many rows as entries plus sub-items |
| `RowBuilder.LinkedTreeParentIsOwner` | src/Utilities/overviewRows.js:188 | in the corrected layout every child's `treeParent` is an earlier position that holds its owner's primary row |

## Left out

- `downloadFile` and `multiDownload` (`src/Utilities/overviewRows.js:223-274`) are left out. They fetch documents over HTTP, build zip archives and save files. The download cell keeps only the arguments it would pass.
- `columns` and the `treeTable` cell transform (`src/Utilities/overviewRows.js:28-37`) are left out. They only configure the table component.
- JSX markup (links, badges, buttons, the empty-state panel and its texts) is left out. Cells keep only the data they show or pass on.
- Locale rules are left out. `toLocaleLowerCase` folds ASCII letters only. `localeCompare('en', {sensitivity: 'base'})` is a lexicographic order on the lower-cased character codes, so accents are not ignored and there is no ICU collation.
- Sorting.SortByColumn: fixes one algorithm (a stable insertion sort). With a comparator that is inconsistent over missing fields, a JavaScript engine may order entries differently. The contract therefore promises a permutation and neighbour order, plus full order when every entry has the compared value. It does not promise stability.
- Values that are not strings are left out: non-string titles or versions, a `perPage` that is not an integer, `sortBy.index` as a non-integer. Page arithmetic is on unbounded integers.
- Filtering.FilterRows: assumes every catalog entry has an `api` object, as `buildRows` requires. The `row.api?.` guard for a missing `api` is not modelled.
- `null` fields are treated as missing (`None`). A `null` differs from `undefined` in three places, and the model does not capture them: `${apiName}` in the link path and the endpoint (`src/Utilities/overviewRows.js:53`, `:73`) renders `null` as the text `null`; `localeCompare(null)` compares against the text `"null"` (`:135-140`); `selectedRows?.[null]` looks up the key `"null"` (`:46`).
- RowMapper.SelectedFlag: models `selectedRows` as a map. A missing `selectedRows` is the same as an empty map.

## Findings

| source | as written | input that shows it | evidently intended | confidence | as-written member | corrected member |
|---|---|---|---|---|---|---|
| src/Utilities/overviewRows.js:188 | a child's `treeParent` is `index`, the owner's position in the page slice | a page of two entries that each have one sub-item: the second entry's child names position 1, which is the first entry's child row; its owner is at position 2 | `treeParent` is the position of the owner's primary row in the flattened rows, so that the child can find its owner row in the rows the table receives | medium; not executed | `RowBuilder.TreeParentMissesOwner` | `RowBuilder.LinkedTreeParentIsOwner` |

`BuildRows` and `PageRows` keep the page index, because that is what the code
computes. `LinkedPageRows` is the corrected layout, and `LinkedTreeParentIsOwner`
proves that every child points at its owner.
