/** The link a scanned code points at: the current page with the content id as a query parameter. */
module ShareLink {
  import opened Wrappers
  import opened UrlQuery

  /** `getShareUrl`: the page's origin and path followed by `?id=` and the id. */
  function ShareUrl(origin: string, pathname: string, id: string): string
  {
    origin + pathname + "?id=" + id
  }

  /**
   * Opening a share link recovers the id: reading the `id` parameter of the
   * link gives back the id it was built from, provided the id holds no `&` or
   * `#` (which would end the parameter early), no `+` or `%` (which the
   * host's parameter reader would decode) and the page address has no query
   * or fragment of its own. Generated ids are hexadecimal and meet this.
   */
  lemma ShareUrlRoundTrip(origin: string, pathname: string, id: string)
    requires '?' !in origin + pathname && '#' !in origin + pathname
    requires '&' !in id && '#' !in id && '+' !in id && '%' !in id
    ensures Param(ShareUrl(origin, pathname, id), "id") == Some(id)
  {
    var base := origin + pathname;
    var query := "id" + "=" + id;
    assert ShareUrl(origin, pathname, id) == base + "?" + query;
    SearchAfterBase(base, query);
    GetLeadingPair("id", id, None);
    assert query + "" == query;
  }
}
