/**
 * Overlay bookkeeping: for every page container `_renderAllPages`
 * created, the identifiers of the marker elements in its overlay, in
 * DOM order.  A page without a container is not a key.
 */
module Overlay {

  import opened Records

  type Overlay = map<int, seq<nat>>

  /** Identifiers of the records on `page`, in list order: what a consistent overlay shows. */
  function IdsOnPage(rs: seq<Record>, page: int): seq<nat>
    decreases |rs|
  {
    if |rs| == 0 then []
    else IdsOnPage(rs[..|rs| - 1], page) + (if rs[|rs| - 1].page == page then [rs[|rs| - 1].id] else [])
  }

  /** Every page's overlay holds exactly the markers of that page's records, in list order. */
  predicate Consistent(ov: Overlay, rs: seq<Record>) {
    forall p | p in ov :: ov[p] == IdsOnPage(rs, p)
  }

  /** `_renderMarker`: appends a marker to the record's page overlay; a page without a container is skipped. */
  function RenderMarker(ov: Overlay, r: Record): (ov': Overlay)
    ensures ov'.Keys == ov.Keys
    ensures r.page in ov ==> ov'[r.page] == ov[r.page] + [r.id]
    ensures forall p | p in ov && p != r.page :: ov'[p] == ov[p]
    ensures r.page !in ov ==> ov' == ov
  {
    if r.page in ov then ov[r.page := ov[r.page] + [r.id]] else ov
  }

  /** `_renderMarker` over each record in list order. */
  function RenderEach(ov: Overlay, rs: seq<Record>): Overlay
    decreases |rs|
  {
    if |rs| == 0 then ov else RenderEach(RenderMarker(ov, rs[0]), rs[1..])
  }

  /** Fresh, empty overlays for pages `1..pages`, as `_renderAllPages` creates them. */
  function FreshPages(pages: nat): (ov: Overlay)
    ensures forall p :: p in ov <==> 1 <= p <= pages
    ensures forall p | p in ov :: ov[p] == []
  {
    if pages == 0 then map[] else FreshPages(pages - 1)[pages := []]
  }

  /** `_renderAllPages`: reset every container, then re-project every record. */
  function RenderAll(pages: nat, rs: seq<Record>): Overlay {
    RenderEach(FreshPages(pages), rs)
  }

  /** The first occurrence of `id` removed, as `querySelector(...).remove()` does. */
  function RemoveFirst(ids: seq<nat>, id: nat): seq<nat>
    decreases |ids|
  {
    if |ids| == 0 then []
    else if ids[0] == id then ids[1..]
    else [ids[0]] + RemoveFirst(ids[1..], id)
  }

  /** The marker removal of `removePosition`: from every overlay, the first marker with that identifier. */
  function RemoveMarker(ov: Overlay, id: nat): (ov': Overlay)
    ensures ov'.Keys == ov.Keys
  {
    map p | p in ov :: RemoveFirst(ov[p], id)
  }

  /** The marker removal of `clearPositions`: every overlay emptied, the containers kept. */
  function ClearMarkers(ov: Overlay): (ov': Overlay)
    ensures ov'.Keys == ov.Keys
    ensures forall p | p in ov' :: ov'[p] == []
  {
    map p | p in ov :: []
  }

  lemma {:induction false} IdsOnPageAppend(a: seq<Record>, b: seq<Record>, page: int)
    ensures IdsOnPage(a + b, page) == IdsOnPage(a, page) + IdsOnPage(b, page)
    decreases |b|
  {
    if |b| == 0 {
      assert a + b == a;
    } else {
      var b' := b[..|b| - 1];
      assert (a + b)[..|a + b| - 1] == a + b';
      IdsOnPageAppend(a, b', page);
    }
  }

  lemma IdsOnPageSingle(r: Record, page: int)
    ensures IdsOnPage([r], page) == (if r.page == page then [r.id] else [])
  {
    assert [r][..0] == [];
  }

  /** An identifier listed on a page belongs to a record on that page. */
  lemma {:induction false} IdsOnPageMembers(rs: seq<Record>, page: int, x: nat)
    requires x in IdsOnPage(rs, page)
    ensures exists k | 0 <= k < |rs| :: rs[k].id == x && rs[k].page == page
    decreases |rs|
  {
    var init := rs[..|rs| - 1];
    if x in IdsOnPage(init, page) {
      IdsOnPageMembers(init, page, x);
      var k :| 0 <= k < |init| && init[k].id == x && init[k].page == page;
      assert rs[k] == init[k];
    }
  }

  /** An identifier no record carries is listed on no page. */
  lemma {:induction false} IdsOnPageExcludes(rs: seq<Record>, page: int, x: nat)
    requires forall k | 0 <= k < |rs| :: rs[k].id != x
    ensures x !in IdsOnPage(rs, page)
    decreases |rs|
  {
    if |rs| > 0 {
      IdsOnPageExcludes(rs[..|rs| - 1], page, x);
    }
  }

  /** No identifier occurs twice. */
  predicate NoDuplicates(ids: seq<nat>) {
    forall i, j | 0 <= i < j < |ids| :: ids[i] != ids[j]
  }

  lemma {:induction false} IdsOnPageNoDuplicates(rs: seq<Record>, page: int)
    requires DistinctIds(rs)
    ensures NoDuplicates(IdsOnPage(rs, page))
    decreases |rs|
  {
    if |rs| > 0 {
      var init := rs[..|rs| - 1];
      var last := rs[|rs| - 1];
      assert forall i | 0 <= i < |init| :: init[i] == rs[i];
      IdsOnPageNoDuplicates(init, page);
      IdsOnPageExcludes(init, page, last.id);
    }
  }

  lemma {:induction false} IdsOnPageListsRecord(rs: seq<Record>, k: nat)
    requires k < |rs|
    ensures rs[k].id in IdsOnPage(rs, rs[k].page)
    decreases |rs|
  {
    var init := rs[..|rs| - 1];
    if k < |init| {
      assert init[k] == rs[k];
      IdsOnPageListsRecord(init, k);
    }
  }

  lemma {:induction false} NoDuplicatesCount(ids: seq<nat>, x: nat)
    requires NoDuplicates(ids) && x in ids
    ensures multiset(ids)[x] == 1
    decreases |ids|
  {
    assert ids == [ids[0]] + ids[1..];
    if ids[0] == x {
      assert x !in ids[1..];
    } else {
      NoDuplicatesCount(ids[1..], x);
    }
  }

  lemma RenderMarkerKeepsConsistent(ov: Overlay, rs: seq<Record>, r: Record)
    requires Consistent(ov, rs)
    ensures Consistent(RenderMarker(ov, r), rs + [r])
  {
    forall p | p in ov
      ensures RenderMarker(ov, r)[p] == IdsOnPage(rs + [r], p)
    {
      IdsOnPageAppend(rs, [r], p);
      IdsOnPageSingle(r, p);
    }
  }

  lemma {:induction false} RenderEachKeepsConsistent(ov: Overlay, rs: seq<Record>, more: seq<Record>)
    requires Consistent(ov, rs)
    ensures Consistent(RenderEach(ov, more), rs + more)
    decreases |more|
  {
    if |more| == 0 {
      assert rs + more == rs;
    } else {
      RenderMarkerKeepsConsistent(ov, rs, more[0]);
      RenderEachKeepsConsistent(RenderMarker(ov, more[0]), rs + [more[0]], more[1..]);
      assert rs + [more[0]] + more[1..] == rs + more;
    }
  }

  /**
   * Re-rendering all pages projects the records afresh: each of pages
   * `1..pages` holds exactly its records' markers, in list order, however
   * many times it is run and whatever the overlays held before.
   */
  lemma RenderAllConsistent(pages: nat, rs: seq<Record>)
    ensures Consistent(RenderAll(pages, rs), rs)
    ensures forall p :: p in RenderAll(pages, rs) <==> 1 <= p <= pages
  {
    RenderEachKeepsConsistent(FreshPages(pages), [], rs);
    assert [] + rs == rs;
    RenderEachKeys(FreshPages(pages), rs);
  }

  lemma {:induction false} RenderEachKeys(ov: Overlay, rs: seq<Record>)
    ensures RenderEach(ov, rs).Keys == ov.Keys
    decreases |rs|
  {
    if |rs| > 0 {
      RenderEachKeys(RenderMarker(ov, rs[0]), rs[1..]);
    }
  }

  lemma {:induction false} RemoveFirstAbsent(ids: seq<nat>, id: nat)
    requires id !in ids
    ensures RemoveFirst(ids, id) == ids
    decreases |ids|
  {
    if |ids| > 0 {
      RemoveFirstAbsent(ids[1..], id);
      assert [ids[0]] + ids[1..] == ids;
    }
  }

  lemma {:induction false} RemoveFirstSplit(a: seq<nat>, b: seq<nat>, id: nat)
    requires id !in a
    ensures RemoveFirst(a + [id] + b, id) == a + b
    decreases |a|
  {
    if |a| == 0 {
      assert a + [id] + b == [id] + b;
    } else {
      assert (a + [id] + b)[1..] == a[1..] + [id] + b;
      RemoveFirstSplit(a[1..], b, id);
      assert [a[0]] + (a[1..] + b) == a + b;
    }
  }

  /** The ids on a page, split around one record. */
  lemma IdsOnPageAround(before: seq<Record>, r: Record, after: seq<Record>, p: int)
    ensures IdsOnPage(before + [r] + after, p)
            == IdsOnPage(before, p) + (if r.page == p then [r.id] else []) + IdsOnPage(after, p)
    ensures IdsOnPage(before + after, p) == IdsOnPage(before, p) + IdsOnPage(after, p)
  {
    IdsOnPageAppend(before + [r], after, p);
    IdsOnPageAppend(before, [r], p);
    IdsOnPageAppend(before, after, p);
    IdsOnPageSingle(r, p);
  }

  /** Dropping the first occurrence of `r`'s identifier, when no other record carries it, lists the list without `r`. */
  lemma RemoveFirstAround(before: seq<Record>, r: Record, after: seq<Record>, p: int)
    requires forall j | 0 <= j < |before| :: before[j].id != r.id
    requires forall j | 0 <= j < |after| :: after[j].id != r.id
    ensures RemoveFirst(IdsOnPage(before + [r] + after, p), r.id) == IdsOnPage(before + after, p)
  {
    IdsOnPageAround(before, r, after, p);
    IdsOnPageExcludes(before, p, r.id);
    if r.page == p {
      RemoveFirstSplit(IdsOnPage(before, p), IdsOnPage(after, p), r.id);
    } else {
      IdsOnPageExcludes(after, p, r.id);
      RemoveFirstAbsent(IdsOnPage(before, p) + IdsOnPage(after, p), r.id);
      assert IdsOnPage(before, p) + [] + IdsOnPage(after, p) == IdsOnPage(before, p) + IdsOnPage(after, p);
    }
  }

  /** With distinct identifiers, no record before or after record `k` carries its identifier. */
  lemma DistinctAround(rs: seq<Record>, k: nat, before: seq<Record>, after: seq<Record>)
    requires DistinctIds(rs) && k < |rs|
    requires before == rs[..k] && after == rs[k + 1..]
    ensures forall j | 0 <= j < |before| :: before[j].id != rs[k].id
    ensures forall j | 0 <= j < |after| :: after[j].id != rs[k].id
  {
    forall j | 0 <= j < |after|
      ensures after[j].id != rs[k].id
    {
      assert after[j] == rs[k + 1 + j];
    }
  }

  /** On one page, dropping the first occurrence of record `k`'s identifier lists the spliced list. */
  lemma RemoveFirstOnPage(rs: seq<Record>, k: nat, p: int)
    requires DistinctIds(rs) && k < |rs|
    ensures RemoveFirst(IdsOnPage(rs, p), rs[k].id) == IdsOnPage(rs[..k] + rs[k + 1..], p)
  {
    var before, after := rs[..k], rs[k + 1..];
    assert rs == before + [rs[k]] + after;
    DistinctAround(rs, k, before, after);
    RemoveFirstAround(before, rs[k], after, p);
  }

  /**
   * Removing record `k`'s markers from every overlay leaves the overlay
   * consistent with the list that has record `k` spliced out.
   */
  lemma RemoveMarkerKeepsConsistent(ov: Overlay, rs: seq<Record>, k: nat)
    requires Consistent(ov, rs) && DistinctIds(rs) && k < |rs|
    ensures Consistent(RemoveMarker(ov, rs[k].id), rs[..k] + rs[k + 1..])
  {
    forall p | p in ov
      ensures RemoveMarker(ov, rs[k].id)[p] == IdsOnPage(rs[..k] + rs[k + 1..], p)
    {
      RemoveFirstOnPage(rs, k, p);
    }
  }

  /** Emptying every overlay is consistent with an empty list. */
  lemma ClearMarkersConsistent(ov: Overlay)
    ensures Consistent(ClearMarkers(ov), [])
  {
  }

  /** Markers depend only on identifiers and pages: changing other fields record by record keeps consistency. */
  lemma {:induction false} IdsOnPageSameShape(rs: seq<Record>, rs': seq<Record>, page: int)
    requires |rs| == |rs'|
    requires forall i | 0 <= i < |rs| :: rs[i].id == rs'[i].id && rs[i].page == rs'[i].page
    ensures IdsOnPage(rs, page) == IdsOnPage(rs', page)
    decreases |rs|
  {
    if |rs| > 0 {
      IdsOnPageSameShape(rs[..|rs| - 1], rs'[..|rs'| - 1], page);
    }
  }

  /**
   * A consistent overlay shows every record whose page has a container
   * exactly once, and shows nothing that is not a record of that page.
   */
  lemma ConsistentShowsEachOnce(ov: Overlay, rs: seq<Record>)
    requires Consistent(ov, rs) && DistinctIds(rs)
    ensures forall k | 0 <= k < |rs| && rs[k].page in ov :: multiset(ov[rs[k].page])[rs[k].id] == 1
    ensures forall p, x | p in ov && x in ov[p] ::
              exists k | 0 <= k < |rs| :: rs[k].id == x && rs[k].page == p
  {
    forall k | 0 <= k < |rs| && rs[k].page in ov
      ensures multiset(ov[rs[k].page])[rs[k].id] == 1
    {
      IdsOnPageNoDuplicates(rs, rs[k].page);
      IdsOnPageListsRecord(rs, k);
      NoDuplicatesCount(ov[rs[k].page], rs[k].id);
    }
    forall p, x | p in ov && x in ov[p]
      ensures exists k | 0 <= k < |rs| :: rs[k].id == x && rs[k].page == p
    {
      IdsOnPageMembers(rs, p, x);
    }
  }
}
