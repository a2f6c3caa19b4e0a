/**
 * What the article list shows of each article: the content cut to a preview,
 * the card class and badge chosen by `is_updated`, and whether the source link
 * and the references list appear.
 */
module Display {
  import opened Options
  import opened Text
  import opened Records
  import opened Table
  import opened NodeApi

  /** The preview length used when none is given. */
  const DefaultPreview: nat := 300

  /** The marker appended to a cut preview. */
  const Ellipsis: string := "..."

  /**
   * `truncateContent(content, maxLength = 300)`: the content itself when it fits;
   * otherwise its first `maxLength` characters and the marker. Either way the
   * preview starts with the content's first `min(|content|, maxLength)`
   * characters and is at most three characters longer than the bound.
   */
  function TruncateContent(content: string, maxLength: nat := DefaultPreview): (r: string)
    ensures |content| <= maxLength ==> r == content
    ensures |content| > maxLength ==> |r| == maxLength + |Ellipsis| && r[maxLength..] == Ellipsis
    ensures Take(content, maxLength) <= r && |r| <= maxLength + |Ellipsis|
  {
    if |content| <= maxLength then content else content[..maxLength] + Ellipsis
  }

  /**
   * The preview is the content itself exactly when the content fits, or when it
   * is three characters too long and already ends with the marker.
   */
  lemma TruncateUnchangedIff(content: string, maxLength: nat)
    ensures TruncateContent(content, maxLength) == content <==>
      |content| <= maxLength || (|content| == maxLength + |Ellipsis| && content[maxLength..] == Ellipsis)
  {
    if |content| > maxLength {
      var r := TruncateContent(content, maxLength);
      if |content| == maxLength + |Ellipsis| && content[maxLength..] == Ellipsis {
        assert content == content[..maxLength] + content[maxLength..];
      }
      if r == content {
        assert |content| == maxLength + |Ellipsis|;
      }
    }
  }

  /** The class shared by the card and the badge. */
  function StatusClass(isUpdated: bool): (r: string)
    ensures r == "updated" || r == "original"
  {
    if isUpdated then "updated" else "original"
  }

  /** The badge's label. */
  function BadgeLabel(isUpdated: bool): (r: string)
    ensures r == "Updated" || r == "Original"
  {
    if isUpdated then "Updated" else "Original"
  }

  /** The card's classes: `article-card` and the status class. */
  function CardClass(isUpdated: bool): (r: string)
    ensures r == "article-card updated" || r == "article-card original"
  {
    "article-card " + StatusClass(isUpdated)
  }

  /** `updated`/`Updated` exactly for updated articles, `original`/`Original` exactly for the others. */
  lemma StatusIff(isUpdated: bool)
    ensures StatusClass(isUpdated) == "updated" <==> isUpdated
    ensures StatusClass(isUpdated) == "original" <==> !isUpdated
    ensures BadgeLabel(isUpdated) == "Updated" <==> isUpdated
    ensures BadgeLabel(isUpdated) == "Original" <==> !isUpdated
    ensures CardClass(isUpdated) == "article-card updated" <==> isUpdated
  {
    var u := "updated";
    var o := "original";
    assert u[0] != o[0];
    var bu := "Updated";
    var bo := "Original";
    assert bu[0] != bo[0];
    var cu := "article-card updated";
    var co := "article-card original";
    assert cu[13] != co[13];
  }

  /** `article.url && …`: the source link appears only for a present, non-empty `url`. */
  predicate ShowsSource(url: Option<string>) {
    url.Some? && url.value != ""
  }

  /** `article.references && article.references.length > 0 && …`: the list appears only when references exist. */
  predicate ShowsReferences(references: Option<seq<RefLink>>) {
    match references
    case None => false
    case Some(refs) => |refs| > 0
  }

  /**
   * A row the Node harvest stores shows its source link exactly when the element
   * had a non-empty `href`, since a stored link is never empty.
   */
  lemma HarvestedRowShowsSource(href: Option<string>)
    ensures ShowsSource(NormalizeUrl(href)) <==> href.Some? && href.value != ""
  {
  }

  /**
   * After the update route, the row is shown with the `updated` class and the
   * `Updated` badge, and its references list appears exactly when the request
   * sent a non-empty one.
   */
  lemma UpdatedRowDisplay(rows: seq<Row>, id: nat, body: UpdateBody, i: nat)
    requires i < |rows| && rows[i].id == id
    ensures var row := NodeUpdatedRows(rows, id, body)[i];
      CardClass(row.isUpdated) == "article-card updated" && BadgeLabel(row.isUpdated) == "Updated" &&
      (ShowsReferences(row.references) <==> body.references.Some? && |body.references.value| > 0)
  {
    StatusIff(true);
  }
}
