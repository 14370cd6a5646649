# Two-pane category browser, modelled in Dafny

This project models the logic under the category browser of an F-Droid
based app-store client. The browser has a left sidebar of app categories and
a right pane listing the apps of the selected category. The model covers:

- the binder (`CategoriesView`). It assembles the sidebar rows from the
  database's categories and the app's default category ids. It keeps track of
  the selected category. It applies app lists delivered by the database, and
  it drops deliveries for a category that is no longer selected. It switches
  between the empty-state view and the app list.
- the sidebar adapter (`CategorySidebar`). It sorts the rows
  case-insensitively by name, or by id when there is no name. It keeps a
  single bounded selection, chooses row styles (selected, or zebra stripes by
  parity), chooses the line count, and builds resource names from category
  names. Its diff callbacks are modelled too.
- the app-list adapter (`CategoryAppList`). It decides when an app counts as
  "New" (added and never updated, at most 14 days ago), and its diff
  callbacks decide row identity and content equality.
- `JavaText`: the two platform string operations this logic depends on. These
  are case-insensitive comparison and replacement of every occurrence of a
  literal substring.
- `Entities`: the values involved (categories, sidebar rows, app rows,
  visibility).

The database's app count per category, the clock (`daysSince`) and the
app's string resources are parameters: a function `string -> int`, a
function `int -> int` and a `map<string, string>`. Each database delivery is
an explicit method call on the binder: `OnChanged` followed by
`DeliverCategoryLoad` for the category list, and `OnAppsDelivered` for an app
list.

The sidebar sort is an in-place insertion sort on a fresh array copy of the
input (`SortedCopy`). It is proved to produce a permutation of the input
that is sorted by the comparator. The comparator is proved total and
transitive, which are the properties a sort needs from it.

The sidebar's selection index is not always a row index. `setCategories`
resets it to 0 even for an empty list, and it starts at 0 before any rows
exist. `SidebarAdapter.Valid` states what does hold: the index is never
negative, and it is a row index whenever it is not 0. `CategoriesViewBinder.Valid`
adds that the current category, when there is one, has a registered
app-list observer, so its apps can always be delivered.

## Model

| member | source | states |
|---|---|---|
| CategoriesView.CategoryItems | app/src/main/java/org/fdroid/fdroid/views/main/CategoriesViewBinder.java:234-267 | the rows are never more than the categories and default ids together, and they begin with the database rows |
| CategoriesView.DbItems | app/src/main/java/org/fdroid/fdroid/views/main/CategoriesViewBinder.java:239-248 | there is at most one database row per input category |
| CategoriesView.DefaultItems | app/src/main/java/org/fdroid/fdroid/views/main/CategoriesViewBinder.java:251-264 | there is at most one default row per default id |
| CategoriesView.LoadCategoryItems | app/src/main/java/org/fdroid/fdroid/views/main/CategoriesViewBinder.java:234-267 | the two loops over the database categories and the default ids, with their id set, return exactly `CategoryItems`: database rows with apps, then default rows with apps whose id no database row has |
| CategoriesView.CategoryItemsHaveApps | app/src/main/java/org/fdroid/fdroid/views/main/CategoriesViewBinder.java:239-264 | every returned row has a positive app count, equal to the database's count for its id |
| CategoriesView.CategoryItemsLayout | app/src/main/java/org/fdroid/fdroid/views/main/CategoriesViewBinder.java:235-264 | database rows come first and default rows (repository 2, no name) follow; no default row repeats the id of a database row; every database category and every default id with apps is listed |
| CategoriesView.DbItemsMembers | app/src/main/java/org/fdroid/fdroid/views/main/CategoriesViewBinder.java:239-248 | the database rows are exactly the input categories with apps, each with its count, and the id set holds exactly their ids |
| CategoriesView.DefaultItemsMembers | app/src/main/java/org/fdroid/fdroid/views/main/CategoriesViewBinder.java:251-264 | the default rows are made-up categories for default ids with apps that are not in the id set, and every such id gets one |
| CategoriesView.DbItemsKeepOrder | app/src/main/java/org/fdroid/fdroid/views/main/CategoriesViewBinder.java:239-248 | the database rows keep input order: the rows of a concatenation are the concatenation of the rows |
| CategoriesView.DefaultItemsKeepOrder | app/src/main/java/org/fdroid/fdroid/views/main/CategoriesViewBinder.java:251-264 | the default rows keep the order of the default ids in the same way |
| CategoriesView.RepeatedDefaultIsListedTwice | app/src/main/java/org/fdroid/fdroid/views/main/CategoriesViewBinder.java:251-259 | the id set holds only database ids, so a default id given twice with apps is listed twice |
| CategoriesView.CategoriesViewBinder.constructor | app/src/main/java/org/fdroid/fdroid/views/main/CategoriesViewBinder.java:70-96 | no category is selected, no observer is registered, both adapters are empty |
| CategoriesView.CategoriesViewBinder.ShowEmptyState | app/src/main/java/org/fdroid/fdroid/views/main/CategoriesViewBinder.java:217-220 | the empty state becomes visible and the app list is hidden, so the two are complementary; nothing else changes |
| CategoriesView.CategoriesViewBinder.HideEmptyState | app/src/main/java/org/fdroid/fdroid/views/main/CategoriesViewBinder.java:225-228 | the empty state is hidden and the app list becomes visible, so the two are complementary; nothing else changes |
| CategoriesView.CategoriesViewBinder.LoadAppsForCategory | app/src/main/java/org/fdroid/fdroid/views/main/CategoriesViewBinder.java:174-178 | registers one more app-list observer for the category, and nothing else |
| CategoriesView.CategoriesViewBinder.OnCategorySelected | app/src/main/java/org/fdroid/fdroid/views/main/CategoriesViewBinder.java:156-169 | selecting the category already current changes nothing and loads nothing; any other category becomes current and its app list is loaded; the current category keeps its observer |
| CategoriesView.CategoriesViewBinder.OnAppsDelivered | app/src/main/java/org/fdroid/fdroid/views/main/CategoriesViewBinder.java:178-192 | a delivery for a category other than the current one changes neither the app list nor the visibilities; one for the current category shows exactly the delivered list, with the empty state visible iff that list is empty and the two views complementary |
| CategoriesView.CategoriesViewBinder.OnCategoriesLoadedAsWritten | app/src/main/java/org/fdroid/fdroid/views/main/CategoriesViewBinder.java:199-212 | an empty list shows the empty state and leaves the sidebar and selection alone; otherwise the sidebar shows the rows sorted, highlights row 0, and the category selected is the first row of the unsorted list |
| CategoriesView.CategoriesViewBinder.OnCategoriesLoaded | app/src/main/java/org/fdroid/fdroid/views/main/CategoriesViewBinder.java:199-212 | as the row above, except that the category selected is the highlighted first row of the sorted sidebar; an observer is registered for it unless it was already current |
| CategoriesView.SortingMovesFirstRow | app/src/main/java/org/fdroid/fdroid/views/main/CategoriesViewBinder.java:204-209 | when the second delivered row sorts strictly before the first and the two have different ids, every sorted arrangement starts with the second, so the id of the highlighted row differs from the id of the category loaded as written |
| CategoriesView.CategoriesViewBinder.OnChanged | app/src/main/java/org/fdroid/fdroid/views/main/CategoriesViewBinder.java:145-151 | a change of the category list replaces any load in flight by one that will deliver `CategoryItems` of the new list |
| CategoriesView.CategoriesViewBinder.DeliverCategoryLoad | app/src/main/java/org/fdroid/fdroid/views/main/CategoriesViewBinder.java:146-150 | only the latest load is delivered, and it is handled as written: no load changes nothing; an empty load shows the empty state and leaves the sidebar and selection alone; a non-empty one shows the rows sorted with row 0 highlighted, makes the first delivered row's category current and registers its observer unless it was already current |
| CategoriesView.FirstLoadShowsApps | app/src/main/java/org/fdroid/fdroid/views/main/CategoriesViewBinder.java:145-212 | after a first category load and the delivery of the current category's apps, the current category is the first row assembled and the pane shows exactly the apps delivered, with the empty state visible iff there are none; with no rows, nothing is selected or shown |
| CategoriesView.CategoriesViewBinder.OnCategoryRowClicked | app/src/main/java/org/fdroid/fdroid/views/categories/CategorySidebarAdapter.java:175-183 | a click on a row index highlights that row and makes its category current, registering its observer unless it was already current; any other position changes nothing |
| CategorySidebar.AreContentsTheSameAsWritten | app/src/main/java/org/fdroid/fdroid/views/categories/CategorySidebarAdapter.java:40-44 | the app counts are compared first and differing counts give false; with equal counts the comparison throws exactly when the old row has no name, and otherwise compares names |
| CategorySidebar.UnnamedRowBreaksContentsAsWritten | app/src/main/java/org/fdroid/fdroid/views/categories/CategorySidebarAdapter.java:35-44 | a default-category row is the same row as itself, yet comparing its contents with itself throws |
| CategorySidebar.ContentsTheSameIsSound | app/src/main/java/org/fdroid/fdroid/views/categories/CategorySidebarAdapter.java:40-44 | the null-safe content comparison is an equivalence, and it agrees with the written one whenever the old row has a name or, more generally, whenever the written one does not throw |
| CategorySidebar.AreItemsTheSame | app/src/main/java/org/fdroid/fdroid/views/categories/CategorySidebarAdapter.java:35-37 | rows with equal categories share their id and their sort key |
| CategorySidebar.SortKey | app/src/main/java/org/fdroid/fdroid/views/categories/CategorySidebarAdapter.java:95-98 | a row sorts by its name, or by its id when it has no name |
| CategorySidebar.KeyLeTotal | app/src/main/java/org/fdroid/fdroid/views/categories/CategorySidebarAdapter.java:94-100 | the sort comparator relates every pair of rows one way or the other |
| CategorySidebar.ChainLe | app/src/main/java/org/fdroid/fdroid/views/categories/CategorySidebarAdapter.java:94-100 | in a list whose neighbours are in order, each row is in order with every later row |
| CategorySidebar.AdjacentOrderSorts | app/src/main/java/org/fdroid/fdroid/views/categories/CategorySidebarAdapter.java:94-100 | by transitivity of the comparator, a list whose neighbours are in order is sorted |
| CategorySidebar.SwapWithPrevious | app/src/main/java/org/fdroid/fdroid/views/categories/CategorySidebarAdapter.java:94-100 | exchanges two neighbouring rows of the copy and leaves every other row, and the multiset of rows, unchanged |
| CategorySidebar.SwapMovesHole | app/src/main/java/org/fdroid/fdroid/views/categories/CategorySidebarAdapter.java:94-100 | swapping the one out-of-order neighbour pair moves the gap in the order one place down and keeps every other neighbour pair in order |
| CategorySidebar.InsertIntoPrefix | app/src/main/java/org/fdroid/fdroid/views/categories/CategorySidebarAdapter.java:94-100 | one step of the in-place sort extends the ordered prefix by one row and keeps the multiset of rows |
| CategorySidebar.SortedCopy | app/src/main/java/org/fdroid/fdroid/views/categories/CategorySidebarAdapter.java:93-100 | sorts a copy of the input: the result is sorted by case-insensitive key and is a permutation of the input |
| CategorySidebar.TruncRem | app/src/main/java/org/fdroid/fdroid/views/categories/CategorySidebarAdapter.java:150 | the platform remainder takes the sign of the dividend, is smaller than the divisor in magnitude, and with the truncated quotient gives back the dividend |
| CategorySidebar.StyleFor | app/src/main/java/org/fdroid/fdroid/views/categories/CategorySidebarAdapter.java:143-161 | the typeface is bold iff the row is selected; a selected row is white with black text; otherwise even positions get the even colours and odd positions the odd colours |
| CategorySidebar.SidebarAdapter.BoundRowStyle | app/src/main/java/org/fdroid/fdroid/views/categories/CategorySidebarAdapter.java:115-119 | a row is bound as selected, and so in bold, exactly when its position is the selection |
| CategorySidebar.NeighbourRowsAlternate | app/src/main/java/org/fdroid/fdroid/views/categories/CategorySidebarAdapter.java:148-161 | two neighbouring unselected rows never share a background, and no unselected row looks like a selected one |
| CategorySidebar.MaxLines | app/src/main/java/org/fdroid/fdroid/views/categories/CategorySidebarAdapter.java:163-172 | a name gets two lines iff it is longer than 20 characters, else one |
| CategorySidebar.ResourceSuffix | app/src/main/java/org/fdroid/fdroid/views/categories/CategorySidebarAdapter.java:196 | the suffix has no space and no apostrophe, and it is never longer than the name |
| CategorySidebar.ResourceSuffixIdempotent | app/src/main/java/org/fdroid/fdroid/views/categories/CategorySidebarAdapter.java:196 | rewriting a suffix again changes nothing |
| CategorySidebar.PlainNameIsOwnSuffix | app/src/main/java/org/fdroid/fdroid/views/categories/CategorySidebarAdapter.java:196 | a name without spaces and apostrophes is its own suffix |
| CategorySidebar.TranslateCategory | app/src/main/java/org/fdroid/fdroid/views/categories/CategorySidebarAdapter.java:190-197 | with no resource named "category_" + suffix the raw name is returned unchanged, else that resource's text |
| CategorySidebar.DisplayName | app/src/main/java/org/fdroid/fdroid/views/categories/CategorySidebarAdapter.java:133-136 | a row shows its category's name; without one, `TranslateCategory` of its id, which is the bare id when no resource matches |
| CategorySidebar.SidebarAdapter.constructor | app/src/main/java/org/fdroid/fdroid/views/categories/CategorySidebarAdapter.java:53-58 | a new sidebar has no rows and selection 0 |
| CategorySidebar.SidebarAdapter.SetSelectedPosition | app/src/main/java/org/fdroid/fdroid/views/categories/CategorySidebarAdapter.java:64-77 | the selection becomes the position iff it is a row index, and otherwise stays as it was; the selection invariant is kept |
| CategorySidebar.SidebarAdapter.SelectedCategory | app/src/main/java/org/fdroid/fdroid/views/categories/CategorySidebarAdapter.java:83-88 | the row at the selection when the selection is a row index, else nothing; under the invariant a non-empty sidebar always has a selected row |
| CategorySidebar.SidebarAdapter.SetCategories | app/src/main/java/org/fdroid/fdroid/views/categories/CategorySidebarAdapter.java:91-105 | the rows become a sorted permutation of the input, and the selection is reset to 0 |
| JavaText.CompareIgnoreCase | app/src/main/java/org/fdroid/fdroid/views/categories/CategorySidebarAdapter.java:99 | equal strings, and strings equal up to case, compare as 0; strings that compare as 0 have the same length |
| JavaText.ReplaceAll | app/src/main/java/org/fdroid/fdroid/views/categories/CategorySidebarAdapter.java:196 | every character of the result comes from the input or the replacement; an input shorter than the target is returned unchanged |
| JavaText.FoldChar | app/src/main/java/org/fdroid/fdroid/views/categories/CategorySidebarAdapter.java:99 | folding leaves no upper-case ASCII letter, changes nothing else, and keeps letters letters |
| JavaText.CompareAntisymmetric | app/src/main/java/org/fdroid/fdroid/views/categories/CategorySidebarAdapter.java:99 | swapping the arguments of the case-insensitive comparison negates its result |
| JavaText.CompareZeroIffSameFolded | app/src/main/java/org/fdroid/fdroid/views/categories/CategorySidebarAdapter.java:99 | two names compare equal iff they agree up to case |
| JavaText.CompareTransitive | app/src/main/java/org/fdroid/fdroid/views/categories/CategorySidebarAdapter.java:99 | "not greater than" under the comparison is transitive |
| JavaText.ReplaceAllShrinks | app/src/main/java/org/fdroid/fdroid/views/categories/CategorySidebarAdapter.java:196 | replacing a target by something no longer never lengthens the string |
| JavaText.ReplaceAllRemoves | app/src/main/java/org/fdroid/fdroid/views/categories/CategorySidebarAdapter.java:196 | replacing a character by text without it removes every occurrence |
| JavaText.ReplaceAllKeepsOut | app/src/main/java/org/fdroid/fdroid/views/categories/CategorySidebarAdapter.java:196 | a replacement introduces no character that neither the input nor the replacement has |
| JavaText.ReplaceAllNoMatch | app/src/main/java/org/fdroid/fdroid/views/categories/CategorySidebarAdapter.java:196 | a string without the target's first character is left as it is |
| CategoryAppList.AreItemsTheSame | app/src/main/java/org/fdroid/fdroid/views/categories/CategoryAppListAdapter.java:38-40 | equal app rows are the same row, and rows with different package names are not |
| CategoryAppList.AreContentsTheSame | app/src/main/java/org/fdroid/fdroid/views/categories/CategoryAppListAdapter.java:43-45 | equal app rows have the same contents, and rows with different last-updated times do not |
| CategoryAppList.IsConsideredNew | app/src/main/java/org/fdroid/fdroid/views/categories/CategoryAppListAdapter.java:161-164 | a new app was never updated after being added, and was added at most 14 days ago |
| CategoryAppList.ItemsTheSameIsEquivalence | app/src/main/java/org/fdroid/fdroid/views/categories/CategoryAppListAdapter.java:38-40 | app-row identity (equal package names) is reflexive, symmetric and transitive |
| CategoryAppList.ContentsIgnoreAllButLastUpdated | app/src/main/java/org/fdroid/fdroid/views/categories/CategoryAppListAdapter.java:43-45 | app-row content equality ignores package name, name, summary and added time, and notices any change of the last-updated time |
| CategoryAppList.UpdatedAppIsNeverNew | app/src/main/java/org/fdroid/fdroid/views/categories/CategoryAppListAdapter.java:161-164 | an app whose last update differs from its added time is never new, whatever its age |
| CategoryAppList.NewThresholdIsInclusive | app/src/main/java/org/fdroid/fdroid/views/categories/CategoryAppListAdapter.java:48-51 | an unchanged app 14 days old is new and one 15 days old is not; a new app is new at every younger age |
| CategoryAppList.NewTagVisibility | app/src/main/java/org/fdroid/fdroid/views/categories/CategoryAppListAdapter.java:121-126 | the "New" tag is visible iff the app is considered new |
| CategoryAppList.BuildMetadataString | app/src/main/java/org/fdroid/fdroid/views/categories/CategoryAppListAdapter.java:152-159 | the metadata line is always empty |
| CategoryAppList.AppListAdapter.constructor | app/src/main/java/org/fdroid/fdroid/views/categories/CategoryAppListAdapter.java:61-64 | a new app list is empty |
| CategoryAppList.AppListAdapter.SetApps | app/src/main/java/org/fdroid/fdroid/views/categories/CategoryAppListAdapter.java:71-73 | the list shown holds the same apps in the same order, unsorted and unfiltered |

## Left out

- List diffing runs asynchronously on the platform. The model applies a submitted list at once, so `getItemCount` in `setSelectedPosition` already sees the new rows.
- CategorySidebar.SortedCopy: does not state that the sort is stable (rows with equal keys keep their input order), which the platform's list sort guarantees; only sortedness and permutation are proved.
- Case folding covers ASCII letters only. Unicode case mapping and locale-dependent names are not modelled, and strings count Unicode scalar values rather than UTF-16 units (this matters for the 20-character line limit).
- A category's localized name is taken as already resolved for the default locale. Category equality in the diff callback is equality of (repository, id, resolved name), where the platform compares all of the category's fields.
- Reactive plumbing is not modelled: threads, schedulers, the disposal of subscriptions and lifecycle-bound observers. A category load is a pending value that a newer load replaces. An app-list observer is an id in `appObservers`, and a delivery is a call naming it.
- The database queries, the clock (`daysSince`) and resource lookup by name are parameters. Reading resources, colours, typefaces, icons, the accessibility descriptions, swipe-to-refresh, the search button, the hiding dialog and the navigation intents fired by app clicks are not modelled.
- `notifyItemChanged` calls in `setSelectedPosition` only repaint rows, so they are not modelled.
- The decorative header drawing and the add-repository screen are not part of this model. They are pixels, and lifecycle and network glue.

## Findings

| source | as written | input that shows it | evidently intended | confidence | as-written member | corrected member |
|---|---|---|---|---|---|---|
| app/src/main/java/org/fdroid/fdroid/views/categories/CategorySidebarAdapter.java:40-44 | `areContentsTheSame` calls `equals` on the old row's name, which is null for every default category row (they are built with empty name maps) | diffing a list that still holds a default row such as `Category(2, "Games", no name)` against one holding the same row with the same app count: the rows are the same, the counts agree, so the names are compared, and the call throws | compare names null-safely, two absent names being equal | medium (not executed; the library's `getName` is not part of this model) | CategorySidebar.UnnamedRowBreaksContentsAsWritten | CategorySidebar.ContentsTheSameIsSound |
| app/src/main/java/org/fdroid/fdroid/views/main/CategoriesViewBinder.java:204-209 | the sidebar sorts the rows and highlights row 0, but the category loaded is `items.get(0)` of the unsorted list | rows delivered as [Games, Connectivity]: the sidebar highlights Connectivity while the app pane shows Games | load the category of the highlighted first sidebar row | high (not executed) | CategoriesView.SortingMovesFirstRow | CategoriesView.CategoriesViewBinder.OnCategoriesLoaded |

`DeliverCategoryLoad` and `FirstLoadShowsApps` follow the code as written: they go through `OnCategoriesLoadedAsWritten`, so the category current after a load is the first row delivered. `OnCategoriesLoaded` is the corrected handler and is not wired into the delivery.
