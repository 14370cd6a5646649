/** The right-hand pane's adapter: which app rows count as the same row or
    as unchanged when a new list is diffed against the old one, when a row
    shows the "New" tag, and the list the adapter currently displays. */
module CategoryAppList {
  import opened Entities

  /** An app stays "new" for this many days after it was added. */
  const DaysToConsiderNew := 14

  /** Diffing: two rows are the same app when their package names agree. */
  predicate AreItemsTheSame(oldItem: AppOverviewItem, newItem: AppOverviewItem)
    ensures oldItem == newItem ==> AreItemsTheSame(oldItem, newItem)
    ensures oldItem.packageName != newItem.packageName ==> !AreItemsTheSame(oldItem, newItem)
  {
    oldItem.packageName == newItem.packageName
  }

  /** Diffing: a row is unchanged when its last-updated time is. */
  predicate AreContentsTheSame(oldItem: AppOverviewItem, newItem: AppOverviewItem)
    ensures oldItem == newItem ==> AreContentsTheSame(oldItem, newItem)
    ensures oldItem.lastUpdated != newItem.lastUpdated ==> !AreContentsTheSame(oldItem, newItem)
  {
    oldItem.lastUpdated == newItem.lastUpdated
  }

  /** Row identity is an equivalence relation. */
  lemma ItemsTheSameIsEquivalence(x: AppOverviewItem, y: AppOverviewItem, z: AppOverviewItem)
    ensures AreItemsTheSame(x, x)
    ensures AreItemsTheSame(x, y) ==> AreItemsTheSame(y, x)
    ensures AreItemsTheSame(x, y) && AreItemsTheSame(y, z) ==> AreItemsTheSame(x, z)
  {
  }

  /** Content equality looks at the last-updated time only: a change of
      name, summary, package name or added time goes unnoticed, and any
      change of the last-updated time is noticed. */
  lemma ContentsIgnoreAllButLastUpdated(x: AppOverviewItem, y: AppOverviewItem,
                                        pkg: string, name: string, summary: string, added: int)
    ensures AreContentsTheSame(x, x.(packageName := pkg, name := name, summary := summary, added := added))
    ensures x.lastUpdated != y.lastUpdated ==> !AreContentsTheSame(x, y)
  {
  }

  /** Whether an app counts as new. `daysSince` gives the number of whole
      days from a timestamp to now. */
  predicate IsConsideredNew(app: AppOverviewItem, daysSince: int -> int)
    ensures IsConsideredNew(app, daysSince) ==>
      app.added == app.lastUpdated && daysSince(app.added) <= DaysToConsiderNew
  {
    app.added == app.lastUpdated && daysSince(app.added) <= DaysToConsiderNew
  }

  /** An app that was updated after it was added is never new, however
      recent. */
  lemma UpdatedAppIsNeverNew(app: AppOverviewItem, daysSince: int -> int)
    requires app.lastUpdated != app.added
    ensures !IsConsideredNew(app, daysSince)
  {
  }

  /** The age threshold is inclusive: day 14 is new, day 15 is not; and an
      app that is new stays new at every younger age. */
  lemma NewThresholdIsInclusive(app: AppOverviewItem, daysSince: int -> int, younger: int -> int)
    requires app.added == app.lastUpdated
    requires younger(app.added) <= daysSince(app.added)
    ensures daysSince(app.added) == 14 ==> IsConsideredNew(app, daysSince)
    ensures daysSince(app.added) == 15 ==> !IsConsideredNew(app, daysSince)
    ensures IsConsideredNew(app, daysSince) ==> IsConsideredNew(app, younger)
  {
  }

  /** The "New" tag of a row is shown exactly for new apps. */
  function NewTagVisibility(app: AppOverviewItem, daysSince: int -> int): (v: Visibility)
    ensures v == Visible <==> IsConsideredNew(app, daysSince)
  {
    if IsConsideredNew(app, daysSince) then Visible else Gone
  }

  /** The metadata line of a row: always empty in this version. */
  function BuildMetadataString(app: AppOverviewItem): (s: string)
    ensures |s| == 0
  {
    ""
  }

  /** The list of app rows on display. */
  class AppListAdapter {
    var items: seq<AppOverviewItem>

    constructor ()
      ensures items == []
    {
      items := [];
    }

    /** Displays a copy of `apps`: the same rows in the same order. */
    method SetApps(apps: seq<AppOverviewItem>)
      modifies this
      ensures items == apps
    {
      items := apps;
    }
  }
}
