/** The controller of the two-pane category browser: it assembles the
    sidebar's rows from the database's categories and the app's default
    categories, tracks the selected category, and applies app lists
    delivered by the database to the right-hand pane, ignoring those that
    belong to a category no longer selected. Database calls are the given
    function `numApps`; each database delivery is an explicit method call. */
module CategoriesView {
  import opened Entities
  import opened JavaText
  import opened CategorySidebar
  import opened CategoryAppList

  // ---------------------------------------------------------------------
  // Assembling the sidebar rows
  // ---------------------------------------------------------------------

  /** The database categories that have apps, in their given order, each
      with its app count. */
  function DbItems(categories: seq<Category>, numApps: string -> int): (r: seq<CategoryItem>)
    ensures |r| <= |categories|
    decreases |categories|
  {
    if categories == [] then []
    else
      var last := categories[|categories| - 1];
      DbItems(categories[..|categories| - 1], numApps)
        + (if numApps(last.id) > 0 then [CategoryItem(last, numApps(last.id))] else [])
  }

  /** The ids of the database categories that have apps. */
  function DbIds(categories: seq<Category>, numApps: string -> int): set<string>
    decreases |categories|
  {
    if categories == [] then {}
    else
      var last := categories[|categories| - 1];
      DbIds(categories[..|categories| - 1], numApps)
        + (if numApps(last.id) > 0 then {last.id} else {})
  }

  /** The category made up for a default id: repository 2, no name. */
  function DefaultCategory(id: string): Category
  {
    Category(2, id, None)
  }

  /** The default ids that are not in `dbIds` and have apps, in their given
      order, each as a made-up category with its app count. */
  function DefaultItems(defaults: seq<string>, dbIds: set<string>, numApps: string -> int): (r: seq<CategoryItem>)
    ensures |r| <= |defaults|
    decreases |defaults|
  {
    if defaults == [] then []
    else
      var last := defaults[|defaults| - 1];
      DefaultItems(defaults[..|defaults| - 1], dbIds, numApps)
        + (if last !in dbIds && numApps(last) > 0 then [CategoryItem(DefaultCategory(last), numApps(last))] else [])
  }

  /** The sidebar rows: database categories with apps, then the default
      categories with apps whose ids no such database category has. */
  function CategoryItems(categories: seq<Category>, defaults: seq<string>, numApps: string -> int): (r: seq<CategoryItem>)
    ensures |r| <= |categories| + |defaults|
    ensures |DbItems(categories, numApps)| <= |r| &&
      r[..|DbItems(categories, numApps)|] == DbItems(categories, numApps)
  {
    DbItems(categories, numApps) + DefaultItems(defaults, DbIds(categories, numApps), numApps)
  }

  /** Builds the rows with a list and a set of ids, in two passes. */
  method LoadCategoryItems(categories: seq<Category>, defaultCategories: seq<string>, numApps: string -> int)
    returns (items: seq<CategoryItem>)
    ensures items == CategoryItems(categories, defaultCategories, numApps)
  {
    items := [];
    var ids: set<string> := {};
    var i := 0;
    while i < |categories|
      invariant 0 <= i <= |categories|
      invariant items == DbItems(categories[..i], numApps)
      invariant ids == DbIds(categories[..i], numApps)
    {
      var c := categories[i];
      var n := numApps(c.id);
      if n > 0 {
        ids := ids + {c.id};
        items := items + [CategoryItem(c, n)];
      }
      assert categories[..i + 1][..i] == categories[..i];
      i := i + 1;
    }
    assert categories[..i] == categories;
    ghost var dbItems := items;
    var k := 0;
    while k < |defaultCategories|
      invariant 0 <= k <= |defaultCategories|
      invariant items == dbItems + DefaultItems(defaultCategories[..k], ids, numApps)
    {
      var id := defaultCategories[k];
      if id !in ids {
        var n := numApps(id);
        if n > 0 {
          items := items + [CategoryItem(DefaultCategory(id), n)];
        }
      }
      assert defaultCategories[..k + 1][..k] == defaultCategories[..k];
      k := k + 1;
    }
    assert defaultCategories[..k] == defaultCategories;
  }

  /** What the database part holds: exactly the input categories with apps,
      each with its count; and its ids are exactly `DbIds`. */
  lemma {:induction false} DbItemsMembers(categories: seq<Category>, numApps: string -> int)
    ensures forall x :: x in DbItems(categories, numApps) ==>
      x.category in categories && x.numApps == numApps(x.category.id) && x.numApps > 0
    ensures forall c :: c in categories && numApps(c.id) > 0 ==>
      CategoryItem(c, numApps(c.id)) in DbItems(categories, numApps)
    ensures DbIds(categories, numApps) == set x | x in DbItems(categories, numApps) :: x.category.id
    decreases |categories|
  {
    if categories != [] {
      var init := categories[..|categories| - 1];
      DbItemsMembers(init, numApps);
      assert categories == init + [categories[|categories| - 1]];
    }
  }

  /** What the default part holds: made-up categories for default ids that
      have apps and are not database ids, and every such id. */
  lemma {:induction false} DefaultItemsMembers(defaults: seq<string>, dbIds: set<string>, numApps: string -> int)
    ensures forall x :: x in DefaultItems(defaults, dbIds, numApps) ==>
      x.category == DefaultCategory(x.category.id) && x.category.id in defaults &&
      x.category.id !in dbIds && x.numApps == numApps(x.category.id) && x.numApps > 0
    ensures forall d :: d in defaults && d !in dbIds && numApps(d) > 0 ==>
      CategoryItem(DefaultCategory(d), numApps(d)) in DefaultItems(defaults, dbIds, numApps)
    decreases |defaults|
  {
    if defaults != [] {
      var init := defaults[..|defaults| - 1];
      DefaultItemsMembers(init, dbIds, numApps);
      assert defaults == init + [defaults[|defaults| - 1]];
    }
  }

  /** The database part keeps input order: the rows for a list are the rows
      for its first part followed by the rows for the rest. */
  lemma {:induction false} DbItemsKeepOrder(front: seq<Category>, back: seq<Category>, numApps: string -> int)
    ensures DbItems(front + back, numApps) == DbItems(front, numApps) + DbItems(back, numApps)
    decreases |back|
  {
    if back == [] {
      assert front + back == front;
    } else {
      var init := back[..|back| - 1];
      DbItemsKeepOrder(front, init, numApps);
      assert (front + back)[..|front + back| - 1] == front + init;
    }
  }

  /** The default part keeps the order of the default ids in the same way. */
  lemma {:induction false} DefaultItemsKeepOrder(front: seq<string>, back: seq<string>, dbIds: set<string>, numApps: string -> int)
    ensures DefaultItems(front + back, dbIds, numApps)
      == DefaultItems(front, dbIds, numApps) + DefaultItems(back, dbIds, numApps)
    decreases |back|
  {
    if back == [] {
      assert front + back == front;
    } else {
      var init := back[..|back| - 1];
      DefaultItemsKeepOrder(front, init, dbIds, numApps);
      assert (front + back)[..|front + back| - 1] == front + init;
    }
  }

  /** Every row has apps, and shows its category's count. */
  lemma CategoryItemsHaveApps(categories: seq<Category>, defaults: seq<string>, numApps: string -> int)
    ensures forall x :: x in CategoryItems(categories, defaults, numApps) ==>
      x.numApps > 0 && x.numApps == numApps(x.category.id)
  {
    DbItemsMembers(categories, numApps);
    DefaultItemsMembers(defaults, DbIds(categories, numApps), numApps);
  }

  /** Database rows come first and default rows after them; a default row
      never repeats the id of a database row; and every database category
      and every default id that has apps is listed. */
  lemma CategoryItemsLayout(categories: seq<Category>, defaults: seq<string>, numApps: string -> int)
    ensures var r := CategoryItems(categories, defaults, numApps);
      var n := |DbItems(categories, numApps)|;
      n <= |r| &&
      (forall k :: 0 <= k < n ==> r[k].category in categories) &&
      (forall k :: n <= k < |r| ==>
        r[k].category == DefaultCategory(r[k].category.id) && r[k].category.id in defaults) &&
      (forall k, m :: 0 <= k < n <= m < |r| ==> r[k].category.id != r[m].category.id) &&
      (forall c :: c in categories && numApps(c.id) > 0 ==> CategoryItem(c, numApps(c.id)) in r[..n]) &&
      (forall d :: d in defaults && numApps(d) > 0 ==> exists x :: x in r && x.category.id == d)
  {
    var db := DbItems(categories, numApps);
    var ids := DbIds(categories, numApps);
    var dflt := DefaultItems(defaults, ids, numApps);
    var r := CategoryItems(categories, defaults, numApps);
    DbItemsMembers(categories, numApps);
    DefaultItemsMembers(defaults, ids, numApps);
    assert r[..|db|] == db;
    forall k | 0 <= k < |db| ensures r[k].category in categories {
      assert r[k] == db[k];
    }
    forall k | |db| <= k < |r|
      ensures r[k].category == DefaultCategory(r[k].category.id) && r[k].category.id in defaults
    {
      assert r[k] == dflt[k - |db|];
    }
    forall k, m | 0 <= k < |db| <= m < |r| ensures r[k].category.id != r[m].category.id {
      assert r[k] == db[k] && r[m] == dflt[m - |db|];
      assert r[k].category.id in ids;
    }
    forall d | d in defaults && numApps(d) > 0 ensures exists x :: x in r && x.category.id == d {
      if d in ids {
        var x :| x in db && x.category.id == d;
        assert x in r;
      } else {
        assert CategoryItem(DefaultCategory(d), numApps(d)) in r;
      }
    }
  }

  /** The id set only holds database ids, so a default id listed twice is
      added twice. */
  lemma RepeatedDefaultIsListedTwice(id: string, numApps: string -> int)
    requires numApps(id) > 0
    ensures |CategoryItems([], [id, id], numApps)| == 2
  {
    var row := CategoryItem(DefaultCategory(id), numApps(id));
    assert [id, id][..1] == [id];
    assert DefaultItems([id], {}, numApps) == [row] by {
      assert [id][..0] == [];
    }
    assert DefaultItems([id, id], {}, numApps) == [row, row];
  }

  // ---------------------------------------------------------------------
  // Selection and delivery
  // ---------------------------------------------------------------------

  /** Sorting can move the first row of the loaded list: when `y` sorts
      strictly before `x`, every sorted arrangement of `[x, y]` starts with
      `y`, so the highlighted row is not the row of the category selected,
      whose id is `x`'s. */
  lemma {:induction false} SortingMovesFirstRow(x: CategoryItem, y: CategoryItem, sorted: seq<CategoryItem>)
    requires CompareIgnoreCase(SortKey(y), SortKey(x)) < 0
    requires x.category.id != y.category.id
    requires SortedByKey(sorted) && multiset(sorted) == multiset([x, y])
    ensures |sorted| == 2 && sorted[0] == y && sorted[0].category.id != x.category.id
  {
    assert |multiset(sorted)| == 2;
    CompareAntisymmetric(SortKey(x), SortKey(y));
    assert KeyLe(sorted[0], sorted[1]);
  }

  class CategoriesViewBinder {
    /** The app's default category ids, from its resources. */
    const defaultCategories: seq<string>
    const categoryAdapter: SidebarAdapter
    const appAdapter: AppListAdapter

    /** The id of the category whose apps the right-hand pane is for. */
    var currentCategoryId: Option<string>
    var emptyState: Visibility
    var appsList: Visibility
    /** The category ids whose app-list observers were registered, in order;
        an observer stays registered, so an id may appear more than once. */
    var appObservers: seq<string>
    /** The rows the category load in flight will deliver, if one is. */
    var pendingCategoryLoad: Option<seq<CategoryItem>>

    /** The sidebar's selection is in range, and the current category, if
        any, has an app-list observer, so its apps can be delivered. */
    ghost predicate Valid()
      reads this, categoryAdapter
    {
      categoryAdapter.Valid() &&
      (currentCategoryId.Some? ==> currentCategoryId.value in appObservers)
    }

    /** Exactly one of the empty state and the app list is visible. */
    predicate VisibilityComplementary()
      reads this
    {
      emptyState != appsList
    }

    /** The visibilities of the two views start as the layout sets them. */
    constructor (defaultCategories: seq<string>, emptyState: Visibility, appsList: Visibility)
      ensures Valid() && fresh(categoryAdapter) && fresh(appAdapter)
      ensures this.defaultCategories == defaultCategories
      ensures this.emptyState == emptyState && this.appsList == appsList
      ensures categoryAdapter.items == [] && appAdapter.items == []
      ensures currentCategoryId == None && appObservers == [] && pendingCategoryLoad == None
    {
      this.defaultCategories := defaultCategories;
      categoryAdapter := new SidebarAdapter();
      appAdapter := new AppListAdapter();
      currentCategoryId := None;
      this.emptyState := emptyState;
      this.appsList := appsList;
      appObservers := [];
      pendingCategoryLoad := None;
    }

    method ShowEmptyState()
      modifies this`emptyState, this`appsList
      ensures emptyState == Visible && appsList == Gone && VisibilityComplementary()
    {
      emptyState := Visible;
      appsList := Gone;
    }

    method HideEmptyState()
      modifies this`emptyState, this`appsList
      ensures emptyState == Gone && appsList == Visible && VisibilityComplementary()
    {
      emptyState := Gone;
      appsList := Visible;
    }

    /** Registers an observer of the app list of `categoryId`. */
    method LoadAppsForCategory(categoryId: string)
      modifies this`appObservers
      ensures appObservers == old(appObservers) + [categoryId]
    {
      appObservers := appObservers + [categoryId];
    }

    /** Selecting the category already selected does nothing; any other
        category becomes the current one and its app list is loaded. */
    method OnCategorySelected(category: CategoryItem)
      requires Valid()
      modifies this`currentCategoryId, this`appObservers
      ensures Valid()
      ensures old(currentCategoryId) == Some(category.category.id) ==>
        currentCategoryId == old(currentCategoryId) && appObservers == old(appObservers)
      ensures old(currentCategoryId) != Some(category.category.id) ==>
        currentCategoryId == Some(category.category.id) &&
        appObservers == old(appObservers) + [category.category.id]
    {
      var categoryId := category.category.id;
      if currentCategoryId == Some(categoryId) {
        return;
      }
      currentCategoryId := Some(categoryId);
      LoadAppsForCategory(categoryId);
    }

    /** The database delivers `apps` to the observer of `categoryId`. Only a
        delivery for the current category is shown, and the empty state is
        shown exactly when it has no apps. */
    method OnAppsDelivered(categoryId: string, apps: seq<AppOverviewItem>)
      requires Valid() && categoryId in appObservers
      modifies this`emptyState, this`appsList, appAdapter
      ensures Valid()
      ensures currentCategoryId != Some(categoryId) ==>
        appAdapter.items == old(appAdapter.items) &&
        emptyState == old(emptyState) && appsList == old(appsList)
      ensures currentCategoryId == Some(categoryId) ==>
        appAdapter.items == apps && VisibilityComplementary() &&
        (emptyState == Visible <==> |apps| == 0)
    {
      if currentCategoryId == Some(categoryId) {
        appAdapter.SetApps(apps);
        if |apps| == 0 {
          ShowEmptyState();
        } else {
          HideEmptyState();
        }
      }
    }

    /** Category rows delivered, as written: an empty list shows the empty
        state and leaves the sidebar alone; otherwise the sidebar shows the
        rows sorted with its first row highlighted, while the category
        selected is the first row of the list as delivered. */
    method OnCategoriesLoadedAsWritten(items: seq<CategoryItem>)
      requires Valid()
      modifies this`emptyState, this`appsList, this`currentCategoryId, this`appObservers, categoryAdapter
      ensures Valid() && VisibilityComplementary()
      ensures |items| == 0 ==>
        emptyState == Visible && appsList == Gone &&
        categoryAdapter.items == old(categoryAdapter.items) &&
        categoryAdapter.selectedPosition == old(categoryAdapter.selectedPosition) &&
        currentCategoryId == old(currentCategoryId) && appObservers == old(appObservers)
      ensures |items| > 0 ==>
        emptyState == Gone && appsList == Visible &&
        SortedByKey(categoryAdapter.items) && multiset(categoryAdapter.items) == multiset(items) &&
        categoryAdapter.selectedPosition == 0 &&
        currentCategoryId == Some(items[0].category.id) &&
        appObservers == (if old(currentCategoryId) == Some(items[0].category.id) then old(appObservers)
                         else old(appObservers) + [items[0].category.id])
    {
      if |items| == 0 {
        ShowEmptyState();
      } else {
        HideEmptyState();
        categoryAdapter.SetCategories(items);
        categoryAdapter.SetSelectedPosition(0);
        OnCategorySelected(items[0]);
      }
    }

    /** Category rows delivered, selecting the row the sidebar highlights:
        as above, except that the category selected is the first row of the
        sorted sidebar, so the highlighted row and the app list agree. */
    method OnCategoriesLoaded(items: seq<CategoryItem>)
      requires Valid()
      modifies this`emptyState, this`appsList, this`currentCategoryId, this`appObservers, categoryAdapter
      ensures Valid() && VisibilityComplementary()
      ensures |items| == 0 ==>
        emptyState == Visible && appsList == Gone &&
        categoryAdapter.items == old(categoryAdapter.items) &&
        categoryAdapter.selectedPosition == old(categoryAdapter.selectedPosition) &&
        currentCategoryId == old(currentCategoryId) && appObservers == old(appObservers)
      ensures |items| > 0 ==>
        emptyState == Gone && appsList == Visible &&
        SortedByKey(categoryAdapter.items) && multiset(categoryAdapter.items) == multiset(items) &&
        categoryAdapter.selectedPosition == 0 &&
        categoryAdapter.SelectedCategory() == Some(categoryAdapter.items[0]) &&
        currentCategoryId == Some(categoryAdapter.items[0].category.id) &&
        appObservers == (if old(currentCategoryId) == currentCategoryId then old(appObservers)
                         else old(appObservers) + [currentCategoryId.value])
    {
      if |items| == 0 {
        ShowEmptyState();
      } else {
        HideEmptyState();
        categoryAdapter.SetCategories(items);
        assert |multiset(categoryAdapter.items)| == |items|;
        categoryAdapter.SetSelectedPosition(0);
        OnCategorySelected(categoryAdapter.items[0]);
      }
    }

    /** The database's category list changed: the load in flight, if any,
        is dropped and a new one computes the rows from `categories`. */
    method OnChanged(categories: seq<Category>, numApps: string -> int)
      modifies this`pendingCategoryLoad
      ensures pendingCategoryLoad == Some(CategoryItems(categories, defaultCategories, numApps))
    {
      var items := LoadCategoryItems(categories, defaultCategories, numApps);
      pendingCategoryLoad := Some(items);
    }

    /** The category load in flight, if any, completes and its rows are
        delivered to the category observer, which handles them as written. */
    method DeliverCategoryLoad()
      requires Valid()
      modifies this`pendingCategoryLoad, this`emptyState, this`appsList, this`currentCategoryId,
        this`appObservers, categoryAdapter
      ensures Valid() && pendingCategoryLoad == None
      ensures old(pendingCategoryLoad).Some? ==> VisibilityComplementary()
      ensures old(pendingCategoryLoad) == None ==>
        emptyState == old(emptyState) && appsList == old(appsList) &&
        currentCategoryId == old(currentCategoryId) && appObservers == old(appObservers) &&
        categoryAdapter.items == old(categoryAdapter.items) &&
        categoryAdapter.selectedPosition == old(categoryAdapter.selectedPosition)
      ensures old(pendingCategoryLoad) == Some([]) ==>
        emptyState == Visible && appsList == Gone &&
        currentCategoryId == old(currentCategoryId) && appObservers == old(appObservers) &&
        categoryAdapter.items == old(categoryAdapter.items) &&
        categoryAdapter.selectedPosition == old(categoryAdapter.selectedPosition)
      ensures old(pendingCategoryLoad).Some? && |old(pendingCategoryLoad).value| > 0 ==>
        var items := old(pendingCategoryLoad).value;
        emptyState == Gone && appsList == Visible &&
        SortedByKey(categoryAdapter.items) && multiset(categoryAdapter.items) == multiset(items) &&
        categoryAdapter.selectedPosition == 0 &&
        currentCategoryId == Some(items[0].category.id) &&
        appObservers == (if old(currentCategoryId) == Some(items[0].category.id) then old(appObservers)
                         else old(appObservers) + [items[0].category.id])
    {
      match pendingCategoryLoad
      case None =>
      case Some(items) =>
        pendingCategoryLoad := None;
        OnCategoriesLoadedAsWritten(items);
    }

    /** A click on the sidebar row at `position`: a row index selects that
        row and its category; anything else is ignored. */
    method OnCategoryRowClicked(position: int)
      requires Valid()
      modifies this`currentCategoryId, this`appObservers, categoryAdapter`selectedPosition
      ensures Valid()
      ensures !(0 <= position < |categoryAdapter.items|) ==>
        categoryAdapter.selectedPosition == old(categoryAdapter.selectedPosition) &&
        currentCategoryId == old(currentCategoryId) && appObservers == old(appObservers)
      ensures 0 <= position < |categoryAdapter.items| ==>
        categoryAdapter.selectedPosition == position &&
        categoryAdapter.SelectedCategory() == Some(categoryAdapter.items[position]) &&
        currentCategoryId == Some(categoryAdapter.items[position].category.id) &&
        appObservers == (if old(currentCategoryId) == currentCategoryId then old(appObservers)
                         else old(appObservers) + [currentCategoryId.value])
    {
      if 0 <= position < categoryAdapter.ItemCount() {
        categoryAdapter.SetSelectedPosition(position);
        OnCategorySelected(categoryAdapter.items[position]);
      }
    }
  }

  /** A first load end to end: the database's categories change, the rows
      arrive, and the apps of the category then selected arrive. When some
      category has apps, the selected category is the first row assembled,
      the right-hand pane shows exactly the apps delivered, and the empty
      state is shown exactly when there are none. */
  method FirstLoadShowsApps(defaults: seq<string>, categories: seq<Category>, numApps: string -> int,
                            apps: seq<AppOverviewItem>)
    returns (current: Option<string>, shown: seq<AppOverviewItem>, empty: Visibility)
    ensures CategoryItems(categories, defaults, numApps) == [] ==> current == None && shown == []
    ensures CategoryItems(categories, defaults, numApps) != [] ==>
      current == Some(CategoryItems(categories, defaults, numApps)[0].category.id) &&
      shown == apps && (empty == Visible <==> |apps| == 0)
  {
    var binder := new CategoriesViewBinder(defaults, Gone, Visible);
    binder.OnChanged(categories, numApps);
    binder.DeliverCategoryLoad();
    current := binder.currentCategoryId;
    if current.Some? {
      binder.OnAppsDelivered(current.value, apps);
    }
    shown := binder.appAdapter.items;
    empty := binder.emptyState;
  }
}
