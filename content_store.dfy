/**
 * The local content store: every shared item is a record in one list kept
 * under a single local-storage key. A save appends a record and then drops
 * every record that has expired; a read returns the first record with the
 * requested id, unless that record has expired.
 *
 * Timestamps are integer milliseconds; "now" is passed in by the caller.
 */
module ContentStore {
  import opened Wrappers

  /** Milliseconds in a day (24 * 60 * 60 * 1000). */
  const DayMs: int := 24 * 60 * 60 * 1000

  /** The `type` field of a record. */
  datatype Kind = Text | Video

  /** The `source` field of a video record: a link to a hosted video or an uploaded file. */
  datatype VideoSource = Url | File

  /** What a caller hands to a save: kind, payload and, for videos, source and media type. */
  datatype ContentData = ContentData(kind: Kind, data: string, source: Option<VideoSource>, mimeType: Option<string>)

  /**
   * One stored record. `expires` is None for content that never expires;
   * `source` and `mimeType` are None when the record lacks the field.
   */
  datatype Record = Record(
    id: string,
    kind: Kind,
    data: string,
    created: int,
    expires: Option<int>,
    source: Option<VideoSource>,
    mimeType: Option<string>)

  /** A record is live at `now` when it never expires or expires strictly after `now`. */
  predicate Live(r: Record, now: int)
  {
    r.expires.None? || r.expires.value > now
  }

  /**
   * The shape of every record a save writes: an expiry lies strictly after
   * creation, text records carry neither source nor media type, and a media
   * type, when present, is non-empty.
   */
  predicate WellFormed(r: Record)
  {
    (r.expires.Some? ==> r.expires.value > r.created) &&
    (r.kind == Text ==> r.source.None? && r.mimeType.None?) &&
    (r.mimeType.Some? ==> r.mimeType.value != "")
  }

  /**
   * The expiry of a record created at `created` and kept for `days` days:
   * none unless `days` is positive, otherwise exactly `days` whole days later.
   */
  function ExpiryFor(created: int, days: int): (e: Option<int>)
    ensures e.None? <==> days <= 0
    ensures e.Some? ==> e.value == created + days * DayMs && e.value > created
  {
    if days > 0 then Some(created + days * DayMs) else None
  }

  /** The record a save writes for `content` under `id` at time `now`. */
  function NewRecord(id: string, content: ContentData, days: int, now: int): (r: Record)
    ensures r.id == id && r.kind == content.kind && r.data == content.data && r.created == now
    ensures r.expires == ExpiryFor(now, days)
    ensures r.source.Some? ==> r.kind == Video && r.source == content.source
    ensures r.kind == Video ==> r.source == content.source
    ensures r.mimeType.Some? <==> content.kind == Video && content.mimeType.Some? && content.mimeType.value != ""
    ensures r.mimeType.Some? ==> r.mimeType == content.mimeType
    ensures WellFormed(r) && Live(r, now)
  {
    var isVideo := content.kind == Video;
    Record(
      id,
      content.kind,
      content.data,
      now,
      ExpiryFor(now, days),
      if isVideo then content.source else None,
      // a media type is copied only when it is a non-empty string
      if isVideo && content.mimeType.Some? && content.mimeType.value != "" then content.mimeType else None)
  }

  // ---------------------------------------------------------------------------
  // Pruning
  // ---------------------------------------------------------------------------

  /** The records of `s` that are live at `now`, in their original order. */
  function Prune(s: seq<Record>, now: int): (r: seq<Record>)
    ensures |r| <= |s|
    ensures forall k :: 0 <= k < |r| ==> Live(r[k], now) && r[k] in s
    decreases |s|
  {
    if s == [] then []
    else if Live(s[0], now) then [s[0]] + Prune(s[1..], now)
    else Prune(s[1..], now)
  }

  /** Pruning a concatenation prunes each side independently, so relative order is kept. */
  lemma {:induction false} PruneAppend(a: seq<Record>, b: seq<Record>, now: int)
    ensures Prune(a + b, now) == Prune(a, now) + Prune(b, now)
    decreases |a|
  {
    if a != [] {
      assert (a + b)[0] == a[0];
      assert (a + b)[1..] == a[1..] + b;
      PruneAppend(a[1..], b, now);
    } else {
      assert a + b == b;
    }
  }

  /** Pruning keeps every copy of a live record and no copy of an expired one. */
  lemma {:induction false} PruneCounts(s: seq<Record>, now: int, x: Record)
    ensures multiset(Prune(s, now))[x] == if Live(x, now) then multiset(s)[x] else 0
    decreases |s|
  {
    if s != [] {
      PruneCounts(s[1..], now, x);
      assert s == [s[0]] + s[1..];
      assert multiset(s) == multiset([s[0]]) + multiset(s[1..]);
    }
  }

  /** A list whose records are all live is left as it is. */
  lemma {:induction false} PruneAllLive(s: seq<Record>, now: int)
    requires forall k :: 0 <= k < |s| ==> Live(s[k], now)
    ensures Prune(s, now) == s
    decreases |s|
  {
    if s != [] {
      PruneAllLive(s[1..], now);
    }
  }

  /** Pruning twice at the same time is pruning once. */
  lemma PruneIdempotent(s: seq<Record>, now: int)
    ensures Prune(Prune(s, now), now) == Prune(s, now)
  {
    PruneAllLive(Prune(s, now), now);
  }

  /** Pruning keeps well-formed records well-formed. */
  lemma PruneWellFormed(s: seq<Record>, now: int)
    requires forall k :: 0 <= k < |s| ==> WellFormed(s[k])
    ensures forall k :: 0 <= k < |Prune(s, now)| ==> WellFormed(Prune(s, now)[k])
  {
  }

  // ---------------------------------------------------------------------------
  // Reading
  // ---------------------------------------------------------------------------

  /** Position `i` holds the first record of `s` with the given id. */
  predicate IsFirstMatch(s: seq<Record>, id: string, i: int)
  {
    0 <= i < |s| && s[i].id == id && forall j :: 0 <= j < i ==> s[j].id != id
  }

  /** `Array.prototype.find` on the id: the position of the first record with that id. */
  function FindFirst(s: seq<Record>, id: string): (r: Option<nat>)
    ensures r.Some? ==> IsFirstMatch(s, id, r.value)
    ensures r.None? ==> forall k :: 0 <= k < |s| ==> s[k].id != id
    decreases |s|
  {
    if s == [] then None
    else if s[0].id == id then Some(0)
    else match FindFirst(s[1..], id)
      case None => None
      case Some(k) => Some(k + 1)
  }

  /**
   * What a read returns from the list `s`: the first record with the id,
   * provided it is live at `now`, and nothing otherwise, whether the id is
   * absent or its first record has expired. A live record further down the
   * list with the same id is not consulted.
   */
  function Lookup(s: seq<Record>, id: string, now: int): (r: Option<Record>)
    ensures r.Some? ==> r.value.id == id && Live(r.value, now) && r.value in s
    ensures forall i :: IsFirstMatch(s, id, i) ==> r == if Live(s[i], now) then Some(s[i]) else None
    ensures (forall k :: 0 <= k < |s| ==> s[k].id != id) ==> r.None?
  {
    match FindFirst(s, id)
    case None => None
    case Some(i) => if Live(s[i], now) then Some(s[i]) else None
  }

  /**
   * The first record of `s` with the id that is live at `now`, searching past
   * expired ones: what a read would find if expired records were skipped.
   */
  function FirstLive(s: seq<Record>, id: string, now: int): (r: Option<Record>)
    ensures r.None? <==> forall k :: 0 <= k < |s| ==> !(s[k].id == id && Live(s[k], now))
    ensures r.Some? ==> exists i :: 0 <= i < |s| && r.value == s[i] && s[i].id == id && Live(s[i], now) &&
                                    forall j :: 0 <= j < i ==> !(s[j].id == id && Live(s[j], now))
    decreases |s|
  {
    if s == [] then None
    else if s[0].id == id && Live(s[0], now) then Some(s[0])
    else
      var r := FirstLive(s[1..], id, now);
      assert forall k :: 1 <= k < |s| ==> s[k] == s[1..][k - 1];
      if r.Some? then
        var i :| 0 <= i < |s| - 1 && r.value == s[1..][i] && s[1..][i].id == id && Live(s[1..][i], now) &&
                 forall j :: 0 <= j < i ==> !(s[1..][j].id == id && Live(s[1..][j], now));
        assert r.value == s[i + 1];
        r
      else
        r
  }

  /** Reading a list whose first element has a different id reads the rest. */
  lemma LookupSkip(x: Record, s: seq<Record>, id: string, now: int)
    requires x.id != id
    ensures Lookup([x] + s, id, now) == Lookup(s, id, now)
  {
    var t := [x] + s;
    assert t[1..] == s;
    match FindFirst(s, id)
    case None =>
      assert forall k :: 0 <= k < |t| ==> t[k].id != id by {
        assert forall k :: 1 <= k < |t| ==> t[k] == s[k - 1];
      }
    case Some(i) =>
      assert IsFirstMatch(t, id, i + 1);
  }

  /**
   * Once a list has been pruned, a read finds the first LIVE record with the
   * id in the list before pruning: pruning can uncover a live record that an
   * expired one with the same id hid.
   */
  lemma {:induction false} LookupAfterPrune(s: seq<Record>, id: string, now: int)
    ensures Lookup(Prune(s, now), id, now) == FirstLive(s, id, now)
    decreases |s|
  {
    if s == [] {
    } else {
      LookupAfterPrune(s[1..], id, now);
      var p := Prune(s[1..], now);
      if Live(s[0], now) {
        assert Prune(s, now) == [s[0]] + p;
        if s[0].id == id {
          assert IsFirstMatch([s[0]] + p, id, 0);
        } else {
          LookupSkip(s[0], p, id, now);
        }
      }
    }
  }

  /** When a read succeeds on `s`, it agrees with the first live record with the id. */
  lemma LookupAgreesWithFirstLive(s: seq<Record>, id: string, now: int)
    requires Lookup(s, id, now).Some?
    ensures FirstLive(s, id, now) == Lookup(s, id, now)
  {
    var i := FindFirst(s, id).value;
    assert Live(s[i], now);
    var r := FirstLive(s, id, now);
    var k :| 0 <= k < |s| && r.value == s[k] && s[k].id == id && Live(s[k], now) &&
             forall j :: 0 <= j < k ==> !(s[j].id == id && Live(s[j], now));
    assert k == i;
  }

  /** The first live record with the id in `s + [x]`: the one in `s`, or else `x` itself. */
  lemma {:induction false} FirstLiveAppend(s: seq<Record>, x: Record, id: string, now: int)
    ensures FirstLive(s + [x], id, now) ==
      if FirstLive(s, id, now).Some? then FirstLive(s, id, now)
      else if x.id == id && Live(x, now) then Some(x)
      else None
    decreases |s|
  {
    if s != [] {
      assert (s + [x])[1..] == s[1..] + [x];
      FirstLiveAppend(s[1..], x, id, now);
    }
  }

  // ---------------------------------------------------------------------------
  // The store
  // ---------------------------------------------------------------------------

  /** The list of records held under the store's local-storage key. */
  class Store {
    var records: seq<Record>

    /** Every stored record has the shape a save writes. */
    ghost predicate Valid()
      reads this
    {
      forall k :: 0 <= k < |records| ==> WellFormed(records[k])
    }

    /** The store as found in local storage (an absent key reads as the empty list). */
    constructor (stored: seq<Record>)
      ensures records == stored
      ensures (forall k :: 0 <= k < |stored| ==> WellFormed(stored[k])) ==> Valid()
    {
      records := stored;
    }

    /**
     * `saveContent`: appends the new record, then keeps only records live at
     * `now`. Earlier records are never overwritten, even when they share the id.
     */
    method Save(id: string, content: ContentData, expirationDays: int, now: int)
      modifies this
      ensures records == Prune(old(records) + [NewRecord(id, content, expirationDays, now)], now)
      ensures records == Prune(old(records), now) + [NewRecord(id, content, expirationDays, now)]
      ensures forall k :: 0 <= k < |records| ==> Live(records[k], now)
      ensures old(Valid()) ==> Valid()
    {
      var record := NewRecord(id, content, expirationDays, now);
      var all := records + [record];
      ghost var before := records;
      records := Prune(all, now);
      PruneAppend(before, [record], now);
      assert Prune([record], now) == [record];
      if old(Valid()) {
        assert forall k :: 0 <= k < |all| ==> WellFormed(all[k]) by {
          assert forall k :: 0 <= k < |before| ==> all[k] == before[k];
        }
        PruneWellFormed(all, now);
      }
    }

    /**
     * `getContent`: the first record with the id when it is live at `now`,
     * nothing otherwise. The stored list is not changed by a read.
     */
    function Get(id: string, now: int): (r: Option<Record>)
      reads this
      ensures r.Some? ==> r.value.id == id && Live(r.value, now) && r.value in records
      ensures forall i :: IsFirstMatch(records, id, i) ==> r == if Live(records[i], now) then Some(records[i]) else None
      ensures (forall k :: 0 <= k < |records| ==> records[k].id != id) ==> r.None?
      ensures Valid() && r.Some? ==> WellFormed(r.value)
    {
      Lookup(records, id, now)
    }
  }

  // ---------------------------------------------------------------------------
  // Saving then reading
  // ---------------------------------------------------------------------------

  /**
   * A save followed by a read at the same time, for an id with no live record
   * yet, returns exactly the record written.
   */
  lemma SaveThenGet(s: seq<Record>, id: string, content: ContentData, days: int, now: int)
    requires forall k :: 0 <= k < |s| ==> !(s[k].id == id && Live(s[k], now))
    ensures Lookup(Prune(s + [NewRecord(id, content, days, now)], now), id, now) == Some(NewRecord(id, content, days, now))
  {
    var rec := NewRecord(id, content, days, now);
    LookupAfterPrune(s + [rec], id, now);
    FirstLiveAppend(s, rec, id, now);
  }

  /**
   * The first writer wins: when a read of the id already succeeds, saving
   * another record under the same id leaves the read result unchanged.
   */
  lemma SaveKeepsEarlierRecord(s: seq<Record>, id: string, content: ContentData, days: int, now: int)
    requires Lookup(s, id, now).Some?
    ensures Lookup(Prune(s + [NewRecord(id, content, days, now)], now), id, now) == Lookup(s, id, now)
  {
    var rec := NewRecord(id, content, days, now);
    LookupAfterPrune(s + [rec], id, now);
    FirstLiveAppend(s, rec, id, now);
    LookupAgreesWithFirstLive(s, id, now);
  }

  /**
   * An expired first record hides a live later one with the same id until the
   * next save prunes it; after any save at that time the later record is read.
   */
  lemma ExpiredRecordHidesLaterOne(a: Record, b: Record, x: Record, now: int)
    requires a.id == b.id && !Live(a, now) && Live(b, now)
    ensures Lookup([a, b], a.id, now).None?
    ensures Lookup(Prune([a, b] + [x], now), a.id, now) == Some(b)
  {
    assert IsFirstMatch([a, b], a.id, 0);
    LookupAfterPrune([a, b] + [x], a.id, now);
    assert ([a, b] + [x])[1..] == [b, x];
  }

  /**
   * After a save at `now`, no record with an expiry at or before `now`
   * remains, so a read of its id at any later time finds nothing unless
   * another record with that id is stored.
   */
  lemma SaveRemovesExpired(s: seq<Record>, rec: Record, now: int, x: Record)
    requires x in s && !Live(x, now)
    ensures x !in Prune(s + [rec], now)
  {
    PruneCounts(s + [rec], now, x);
  }
}
