/**
 * The records shared by the pipeline, the two store APIs and the display: one row
 * of the `articles` table (the fillable attributes of the Article model plus the
 * `id` and `created_at` columns the queries use) and one `{title, url}` reference.
 */
module Records {
  import opened Options

  /** A point in time, as the store orders `created_at`; clocks are inputs of the model. */
  type Timestamp = int

  /** One entry of an article's `references` list. */
  datatype RefLink = RefLink(title: string, url: string)

  /** One row of the `articles` table. `references` is `None` where the column holds NULL. */
  datatype Row = Row(
    id: nat,
    title: string,
    content: string,
    url: Option<string>,
    publishedAt: Timestamp,
    isUpdated: bool,
    references: Option<seq<RefLink>>,
    createdAt: Timestamp)
}
