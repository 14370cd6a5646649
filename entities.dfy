/** The values the category browser works on: database categories, the
    sidebar's category rows, app overview rows, and view visibility. */
module Entities {

  datatype Option<+T> = None | Some(value: T)

  /** A category as the database delivers it. `name` is the localized name
      already resolved for the default locale; it is absent when the
      category has no name for any locale (as the default categories the
      browser creates itself have). */
  datatype Category = Category(repoId: int, id: string, name: Option<string>)

  /** A sidebar row: a category together with its number of apps. */
  datatype CategoryItem = CategoryItem(category: Category, numApps: int)

  /** One app row of the right-hand pane. Timestamps are milliseconds. */
  datatype AppOverviewItem = AppOverviewItem(
    packageName: string,
    name: string,
    summary: string,
    added: int,
    lastUpdated: int)

  /** The two visibilities the browser uses. */
  datatype Visibility = Visible | Gone
}
