/** The left-hand sidebar's adapter: the ordering of the category rows, the
    single selected row, how a row is styled, and how a category without a
    name is given one from the app's string resources. */
module CategorySidebar {
  import opened Entities
  import opened JavaText

  // ---------------------------------------------------------------------
  // Diffing
  // ---------------------------------------------------------------------

  /** What a call either returns or throws. */
  datatype Outcome<+T> = Returns(value: T) | ThrowsNullPointer

  /** Diffing: two rows are the same row when their categories are equal;
      such rows share their id and their sort key. */
  predicate AreItemsTheSame(oldItem: CategoryItem, newItem: CategoryItem)
    ensures AreItemsTheSame(oldItem, newItem) ==>
      oldItem.category.id == newItem.category.id && SortKey(oldItem) == SortKey(newItem)
  {
    oldItem.category == newItem.category
  }

  /** Diffing as written: app counts equal and names equal. The names are
      compared only when the counts are equal (the conjunction short-circuits),
      by a method call on the old row's name, which throws when that name is
      absent. */
  function AreContentsTheSameAsWritten(oldItem: CategoryItem, newItem: CategoryItem): (r: Outcome<bool>)
    ensures r == ThrowsNullPointer <==> oldItem.numApps == newItem.numApps && oldItem.category.name == None
    ensures oldItem.numApps != newItem.numApps ==> r == Returns(false)
  {
    if oldItem.numApps != newItem.numApps then Returns(false)
    else
      match oldItem.category.name
      case None => ThrowsNullPointer
      case Some(oldName) => Returns(newItem.category.name == Some(oldName))
  }

  /** Diffing with a null-safe name comparison: app counts equal and names
      equal, two absent names counting as equal. */
  predicate AreContentsTheSame(oldItem: CategoryItem, newItem: CategoryItem)
  {
    oldItem.numApps == newItem.numApps && oldItem.category.name == newItem.category.name
  }

  /** The list differ asks for content equality exactly for pairs it found
      to be the same row, so a pair of identical rows must be answerable.
      As written, a row without a name (every default category row) makes
      the comparison throw even against itself. */
  lemma {:induction false} UnnamedRowBreaksContentsAsWritten(id: string, numApps: int)
    ensures var row := CategoryItem(Category(2, id, None), numApps);
      AreItemsTheSame(row, row) && AreContentsTheSameAsWritten(row, row) == ThrowsNullPointer
  {
  }

  /** The null-safe comparison is an equivalence that every identical pair
      satisfies, and it agrees with the written one whenever the written one
      returns. */
  lemma {:induction false} ContentsTheSameIsSound(x: CategoryItem, y: CategoryItem, z: CategoryItem)
    ensures AreContentsTheSame(x, x)
    ensures AreContentsTheSame(x, y) ==> AreContentsTheSame(y, x)
    ensures AreContentsTheSame(x, y) && AreContentsTheSame(y, z) ==> AreContentsTheSame(x, z)
    ensures x.category.name != None ==>
      AreContentsTheSameAsWritten(x, y) == Returns(AreContentsTheSame(x, y))
    ensures AreContentsTheSameAsWritten(x, y) != ThrowsNullPointer ==>
      AreContentsTheSameAsWritten(x, y) == Returns(AreContentsTheSame(x, y))
  {
  }

  // ---------------------------------------------------------------------
  // Ordering
  // ---------------------------------------------------------------------

  /** The text a row is sorted by: its name, or its id when it has none. */
  function SortKey(item: CategoryItem): (k: string)
    ensures item.category.name == None ==> k == item.category.id
    ensures item.category.name != None ==> k == item.category.name.value
  {
    match item.category.name
    case Some(n) => n
    case None => item.category.id
  }

  /** The comparator handed to the sort: `x` may come before `y`. */
  predicate KeyLe(x: CategoryItem, y: CategoryItem)
  {
    CompareIgnoreCase(SortKey(x), SortKey(y)) <= 0
  }

  predicate SortedByKey(s: seq<CategoryItem>)
  {
    forall i, j :: 0 <= i < j < |s| ==> KeyLe(s[i], s[j])
  }

  /** The comparator relates every pair one way or the other. */
  lemma KeyLeTotal(x: CategoryItem, y: CategoryItem)
    ensures KeyLe(x, y) || KeyLe(y, x)
  {
    CompareAntisymmetric(SortKey(x), SortKey(y));
  }

  /** In a sequence whose neighbours are in order, every row is in order
      with every later row, by a chain of neighbours. */
  lemma {:induction false} ChainLe(s: seq<CategoryItem>, i: int, j: int)
    requires 0 <= i <= j < |s|
    requires forall k :: 0 < k < |s| ==> KeyLe(s[k - 1], s[k])
    ensures KeyLe(s[i], s[j])
    decreases j - i
  {
    if i < j {
      ChainLe(s, i, j - 1);
      CompareTransitive(SortKey(s[i]), SortKey(s[j - 1]), SortKey(s[j]));
    }
  }

  /** A sequence whose neighbours are in order is sorted. */
  lemma AdjacentOrderSorts(s: seq<CategoryItem>)
    requires forall k :: 0 < k < |s| ==> KeyLe(s[k - 1], s[k])
    ensures SortedByKey(s)
  {
    forall i, j | 0 <= i < j < |s|
      ensures KeyLe(s[i], s[j])
    {
      ChainLe(s, i, j);
    }
  }

  /** Neighbours in `s[..n + 1]` are in order, except possibly the pair
      that ends at `hole`. */
  ghost predicate InOrderExcept(s: seq<CategoryItem>, n: int, hole: int)
  {
    forall k :: 0 < k <= n && k < |s| && k != hole ==> KeyLe(s[k - 1], s[k])
  }

  /** Exchanges `a[j - 1]` and `a[j]`. */
  method SwapWithPrevious(a: array<CategoryItem>, j: int)
    requires 0 < j < a.Length
    modifies a
    ensures a[j - 1] == old(a[j]) && a[j] == old(a[j - 1])
    ensures forall k :: 0 <= k < a.Length && k != j - 1 && k != j ==> a[k] == old(a[k])
    ensures multiset(a[..]) == old(multiset(a[..]))
  {
    a[j - 1], a[j] := a[j], a[j - 1];
  }

  /** Swapping an out-of-order pair at the hole moves the hole one place
      down and keeps every other neighbour pair in order. */
  lemma SwapMovesHole(b: seq<CategoryItem>, c: seq<CategoryItem>, i: int, j: int)
    requires 0 < j <= i < |b| == |c|
    requires InOrderExcept(b, i, j)
    requires 0 < j < i ==> KeyLe(b[j - 1], b[j + 1])
    requires KeyLe(b[j], b[j - 1])
    requires c[j - 1] == b[j] && c[j] == b[j - 1]
    requires forall k :: 0 <= k < |b| && k != j - 1 && k != j ==> c[k] == b[k]
    ensures InOrderExcept(c, i, j - 1)
    ensures 0 < j - 1 < i ==> KeyLe(c[j - 2], c[j])
  {
    forall k | 0 < k <= i && k != j - 1
      ensures KeyLe(c[k - 1], c[k])
    {
      if k == j {
        assert c[k - 1] == b[j] && c[k] == b[j - 1];
      } else if k == j + 1 {
        assert c[k - 1] == b[j - 1] && c[k] == b[j + 1];
      } else {
        assert c[k - 1] == b[k - 1] && c[k] == b[k];
      }
    }
    if 0 < j - 1 < i {
      assert c[j - 2] == b[j - 2] && c[j] == b[j - 1];
    }
  }

  /** One step of insertion sort: moves `a[i]` down into the ordered prefix
      `a[..i]` by swapping it with each larger neighbour. */
  method InsertIntoPrefix(a: array<CategoryItem>, i: int)
    requires 0 < i < a.Length
    requires InOrderExcept(a[..], i, i)
    modifies a
    ensures InOrderExcept(a[..], i, 0)
    ensures multiset(a[..]) == old(multiset(a[..]))
  {
    var j := i;
    while j > 0 && !KeyLe(a[j - 1], a[j])
      invariant 0 <= j <= i
      invariant InOrderExcept(a[..], i, j)
      invariant 0 < j < i ==> KeyLe(a[j - 1], a[j + 1])
      invariant multiset(a[..]) == old(multiset(a[..]))
    {
      KeyLeTotal(a[j - 1], a[j]);
      ghost var b := a[..];
      SwapWithPrevious(a, j);
      SwapMovesHole(b, a[..], i, j);
      j := j - 1;
    }
  }

  /** Sorts a fresh copy of `items` by key, case-insensitively, leaving the
      caller's list as it was. */
  method SortedCopy(items: seq<CategoryItem>) returns (r: seq<CategoryItem>)
    ensures SortedByKey(r)
    ensures multiset(r) == multiset(items)
  {
    var a := new CategoryItem[|items|](i requires 0 <= i < |items| => items[i]);
    assert a[..] == items;
    var i := 1;
    while i < a.Length
      invariant InOrderExcept(a[..], i - 1, 0)
      invariant multiset(a[..]) == multiset(items)
    {
      InsertIntoPrefix(a, i);
      i := i + 1;
    }
    r := a[..];
    AdjacentOrderSorts(r);
  }

  // ---------------------------------------------------------------------
  // Row appearance
  // ---------------------------------------------------------------------

  datatype Color = White | Black | SidebarBgEven | SidebarBgOdd | SidebarTextNormalDark | SidebarTextNormal
  datatype Typeface = Bold | Normal
  datatype RowStyle = RowStyle(background: Color, textColor: Color, typeface: Typeface)

  /** The quotient of the platform's integer `/`, which truncates toward
      zero. */
  function TruncQuot(a: int, b: int): (q: int)
    requires b > 0
    ensures a >= 0 ==> q >= 0
    ensures a <= 0 ==> q <= 0
  {
    if a >= 0 then a / b else -((-a) / b)
  }

  /** The remainder of the platform's `%`, which truncates toward zero: it
      takes the sign of `a`, is smaller than `b` in magnitude, and together
      with the truncated quotient gives back `a`. */
  function TruncRem(a: int, b: int): (r: int)
    requires b > 0
    ensures -b < r < b
    ensures a >= 0 ==> r >= 0
    ensures a <= 0 ==> r <= 0
    ensures a == b * TruncQuot(a, b) + r
  {
    if a >= 0 then a % b
    else
      var n := -a;
      assert n == b * (n / b) + n % b;
      assert b * TruncQuot(a, b) == -(b * (n / b));
      -(n % b)
  }

  /** The style of a row: a selected row is white with bold black text; any
      other row is striped by the parity of its position. */
  function StyleFor(isSelected: bool, position: int): (st: RowStyle)
    ensures (st.typeface == Bold) <==> isSelected
    ensures isSelected ==> st == RowStyle(White, Black, Bold)
    ensures !isSelected && position % 2 == 0 ==> st == RowStyle(SidebarBgEven, SidebarTextNormalDark, Normal)
    ensures !isSelected && position % 2 != 0 ==> st == RowStyle(SidebarBgOdd, SidebarTextNormal, Normal)
  {
    if isSelected then RowStyle(White, Black, Bold)
    else if TruncRem(position, 2) == 0 then RowStyle(SidebarBgEven, SidebarTextNormalDark, Normal)
    else RowStyle(SidebarBgOdd, SidebarTextNormal, Normal)
  }

  /** Zebra striping: two neighbouring rows that are not selected never share
      a background, and no unselected row looks like the selected one. */
  lemma NeighbourRowsAlternate(position: int)
    ensures StyleFor(false, position).background != StyleFor(false, position + 1).background
    ensures StyleFor(false, position) != StyleFor(true, position)
  {
  }

  /** A name of more than 20 characters may wrap onto a second line. */
  function MaxLines(name: string): (lines: nat)
    ensures lines == 1 || lines == 2
    ensures lines == 2 <==> |name| > 20
  {
    if |name| > 20 then 2 else 1
  }

  /** The resource-name suffix for a category name: " & " becomes "_", then
      each space becomes "_", then apostrophes are dropped. */
  function ResourceSuffix(name: string): (suffix: string)
    ensures ' ' !in suffix && '\'' !in suffix
    ensures |suffix| <= |name|
  {
    var s1 := ReplaceAll(name, " & ", "_");
    var s2 := ReplaceAll(s1, " ", "_");
    var s3 := ReplaceAll(s2, "'", "");
    ReplaceAllShrinks(name, " & ", "_");
    ReplaceAllShrinks(s1, " ", "_");
    ReplaceAllShrinks(s2, "'", "");
    ReplaceAllRemoves(s1, ' ', "_");
    ReplaceAllKeepsOut(s2, "'", "", ' ');
    ReplaceAllRemoves(s2, '\'', "");
    s3
  }

  /** A suffix is its own suffix: rewriting twice changes nothing. */
  lemma ResourceSuffixIdempotent(name: string)
    ensures ResourceSuffix(ResourceSuffix(name)) == ResourceSuffix(name)
  {
    var s := ResourceSuffix(name);
    ReplaceAllNoMatch(s, " & ", "_");
    ReplaceAllNoMatch(s, " ", "_");
    ReplaceAllNoMatch(s, "'", "");
  }

  /** A name free of spaces and apostrophes is its own suffix. */
  lemma PlainNameIsOwnSuffix(name: string)
    requires ' ' !in name && '\'' !in name
    ensures ResourceSuffix(name) == name
  {
    ReplaceAllNoMatch(name, " & ", "_");
    ReplaceAllNoMatch(name, " ", "_");
    ReplaceAllNoMatch(name, "'", "");
  }

  /** The name shown for a category that has none: the string resource
      "category_" + suffix when it exists, else the raw name. `resources`
      maps the names of the app's string resources to their text. */
  function TranslateCategory(categoryName: string, resources: map<string, string>): (shown: string)
    ensures ("category_" + ResourceSuffix(categoryName)) !in resources ==> shown == categoryName
    ensures ("category_" + ResourceSuffix(categoryName)) in resources ==>
      shown == resources["category_" + ResourceSuffix(categoryName)]
  {
    var key := "category_" + ResourceSuffix(categoryName);
    if key in resources then resources[key] else categoryName
  }

  /** The text of a row: the category's name, or its translated id. */
  function DisplayName(item: CategoryItem, resources: map<string, string>): (shown: string)
    ensures item.category.name != None ==> shown == item.category.name.value
    ensures item.category.name == None ==> shown == TranslateCategory(item.category.id, resources)
    ensures item.category.name == None && resources == map[] ==> shown == item.category.id
  {
    match item.category.name
    case Some(n) => n
    case None => TranslateCategory(item.category.id, resources)
  }

  // ---------------------------------------------------------------------
  // The adapter
  // ---------------------------------------------------------------------

  class SidebarAdapter {
    /** The rows on display, as last submitted. */
    var items: seq<CategoryItem>
    var selectedPosition: int

    /** The selection never goes negative, and it is a row index whenever it
        was set to anything other than the initial 0. */
    ghost predicate Valid()
      reads this
    {
      0 <= selectedPosition && (selectedPosition == 0 || selectedPosition < |items|)
    }

    constructor ()
      ensures Valid() && items == [] && selectedPosition == 0
    {
      items := [];
      selectedPosition := 0;
    }

    function ItemCount(): nat
      reads this
    {
      |items|
    }

    /** Selects `position` if it is a row index and otherwise does nothing. */
    method SetSelectedPosition(position: int)
      requires Valid()
      modifies this`selectedPosition
      ensures Valid()
      ensures 0 <= position < |items| ==> selectedPosition == position
      ensures !(0 <= position < |items|) ==> selectedPosition == old(selectedPosition)
    {
      if 0 <= position < ItemCount() {
        selectedPosition := position;
      }
    }

    /** The selected row, or nothing when the selection is not a row index. */
    function SelectedCategory(): (r: Option<CategoryItem>)
      reads this
      ensures r != None <==> 0 <= selectedPosition < |items|
      ensures r != None ==> r.value == items[selectedPosition] && r.value in items
      ensures Valid() && |items| > 0 ==> r != None
    {
      if 0 <= selectedPosition < ItemCount() then Some(items[selectedPosition]) else None
    }

    /** The style the row at `position` is bound with: it is drawn as
        selected exactly when it is the selected position, so at most one
        row is bold. */
    function BoundRowStyle(position: int): (st: RowStyle)
      reads this
      ensures st.typeface == Bold <==> position == selectedPosition
      ensures st == StyleFor(position == selectedPosition, position)
    {
      StyleFor(position == selectedPosition, position)
    }

    /** Shows `input` sorted by key and moves the selection back to the top. */
    method SetCategories(input: seq<CategoryItem>)
      requires Valid()
      modifies this
      ensures Valid()
      ensures SortedByKey(items) && multiset(items) == multiset(input)
      ensures selectedPosition == 0
    {
      var sorted := SortedCopy(input);
      items := sorted;
      selectedPosition := 0;
    }
  }
}
