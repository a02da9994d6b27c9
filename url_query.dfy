/**
 * The part of the host's URL parsing the application depends on: reading one
 * parameter from the query string of a URL, as
 * `new URLSearchParams(new URL(url).search).get(key)` does.
 */
module UrlQuery {
  import opened Wrappers
  import opened Strings

  /** The query of `url` without its `?`: what follows the first `?` before any `#`. */
  function Search(url: string): (q: string)
    ensures '#' !in q
  {
    var beforeFragment := BeforeFirst(url, '#');
    match AfterFirst(beforeFragment, '?')
    case None => ""
    case Some(rest) =>
      assert forall k :: 0 <= k < |rest| ==> rest[k] == beforeFragment[|beforeFragment| - |rest| + k];
      rest
  }

  /** The name of a `name=value` pair: the text before its first `=`. */
  function PairName(pair: string): string
  {
    BeforeFirst(pair, '=')
  }

  /** The value of a `name=value` pair: the text after its first `=`, or empty when there is none. */
  function PairValue(pair: string): string
  {
    match AfterFirst(pair, '=')
    case None => ""
    case Some(v) => v
  }

  /** The pair at position `k` is a non-empty pair named `key`. */
  predicate Names(pairs: seq<string>, k: int, key: string)
  {
    0 <= k < |pairs| && pairs[k] != [] && PairName(pairs[k]) == key
  }

  /**
   * The value of the first non-empty pair named `key`, or None (JavaScript
   * `null`) when no pair has that name.
   */
  function FirstValue(pairs: seq<string>, key: string): (r: Option<string>)
    ensures r.None? <==> forall k :: 0 <= k < |pairs| ==> !Names(pairs, k, key)
    ensures r.Some? ==> exists k :: Names(pairs, k, key) && r.value == PairValue(pairs[k]) &&
                                    forall j :: 0 <= j < k ==> !Names(pairs, j, key)
  {
    if pairs == [] then None
    else if pairs[0] != [] && PairName(pairs[0]) == key then
      assert Names(pairs, 0, key);
      Some(PairValue(pairs[0]))
    else
      var r := FirstValue(pairs[1..], key);
      assert forall k :: 1 <= k < |pairs| ==> (Names(pairs, k, key) <==> Names(pairs[1..], k - 1, key));
      if r.Some? then
        var k :| Names(pairs[1..], k, key) && r.value == PairValue(pairs[1..][k]) &&
                 forall j :: 0 <= j < k ==> !Names(pairs[1..], j, key);
        assert Names(pairs, k + 1, key);
        r
      else
        r
  }

  /** `URLSearchParams(query).get(key)`: pairs are separated by `&`; no decoding is done. */
  function Get(query: string, key: string): Option<string>
  {
    FirstValue(Split(query, '&'), key)
  }

  /** The value of the query parameter `key` of `url`. */
  function Param(url: string, key: string): Option<string>
  {
    Get(Search(url), key)
  }

  /** The query of `base + "?" + query` is `query` when `base` has no `?` or `#` and `query` has no `#`. */
  lemma SearchAfterBase(base: string, query: string)
    requires '?' !in base && '#' !in base && '#' !in query
    ensures Search(base + "?" + query) == query
  {
    var url := base + "?" + query;
    assert url == base + ['?'] + query;
    assert '#' !in url;
    assert BeforeFirst(url, '#') == url;
    SplitAtFirst(base, '?', query);
    assert AfterFirst(url, '?') == Some(query);
  }

  /**
   * A query that starts with the pair `key=value`, followed by nothing or by
   * further `&`-separated pairs, yields `value` for `key`.
   */
  lemma {:induction false} GetLeadingPair(key: string, value: string, more: Option<string>)
    requires key != [] && '=' !in key && '&' !in key && '&' !in value
    ensures var query := key + "=" + value + (if more.Some? then "&" + more.value else "");
            Get(query, key) == Some(value)
  {
    var pair := key + "=" + value;
    assert '&' !in pair;
    assert pair == key + ['='] + value;
    SplitAtFirst(key, '=', value);
    assert PairName(pair) == key && PairValue(pair) == value;
    var query := key + "=" + value + (if more.Some? then "&" + more.value else "");
    if more.Some? {
      assert query == pair + ['&'] + more.value;
      SplitCons(pair, '&', more.value);
    } else {
      assert query == pair;
      SplitWithoutSep(pair, '&');
    }
    var pairs := Split(query, '&');
    assert pairs[0] == pair && Names(pairs, 0, key);
  }
}
