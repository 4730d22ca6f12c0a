/**
 * The annotation store: the ordered list `_positions`, the undo stack
 * `_undoStack` of removed records, and the identifier counter `_nextId`.
 */
module Store {

  import opened Wrappers
  import opened Records

  datatype Store = Store(positions: seq<Record>, undo: seq<Record>, nextId: nat)

  /** The store of a freshly constructed viewer. */
  const Empty: Store := Store([], [], 1)

  /**
   * The identifier invariant: identifiers of stored and undoable records
   * are pairwise distinct, and all of them were issued by the counter.
   */
  predicate Valid(st: Store) {
    && DistinctIds(st.positions)
    && DistinctIds(st.undo)
    && (forall p, u | p in st.positions && u in st.undo :: p.id != u.id)
    && (forall r | r in st.positions :: r.id < st.nextId)
    && (forall r | r in st.undo :: r.id < st.nextId)
  }

  lemma EmptyValid()
    ensures Valid(Empty)
  {
  }

  /**
   * Appends `r` under the next identifier and advances the counter.  The
   * identifier `r` carries is ignored.  Shared by `addPosition`, the
   * handwriting save and the storage replay.
   */
  function Append(st: Store, r: Record): (st': Store)
    ensures |st'.positions| == |st.positions| + 1
    ensures st'.positions[..|st.positions|] == st.positions
    ensures st'.positions[|st.positions|] == r.(id := st.nextId)
    ensures st'.undo == st.undo && st'.nextId == st.nextId + 1
  {
    Store(st.positions + [r.(id := st.nextId)], st.undo, st.nextId + 1)
  }

  lemma AppendPreservesValid(st: Store, r: Record)
    requires Valid(st)
    ensures Valid(Append(st, r))
  {
    var st' := Append(st, r);
    forall i, j | 0 <= i < j < |st'.positions|
      ensures st'.positions[i].id != st'.positions[j].id
    {
      if j == |st.positions| {
        assert st.positions[i] in st.positions;
      }
    }
  }

  /** The record `addPosition` builds from its argument, before the identifier is assigned. */
  function FromSpec(spec: AddSpec): Record
    requires spec.xPercent.Number? && spec.yPercent.Number?
  {
    Record(0,
      if spec.page.Some? then spec.page.value else 1,
      spec.xPercent.value, spec.yPercent.value,
      OrNull(spec.labelText), OrNull(spec.widthPercent), OrNull(spec.heightPercent), OrNull(spec.image))
  }

  /** Outcome of `addPosition`: the new store and the record returned, or the thrown validation error. */
  datatype AddOutcome = Added(store: Store, record: Record) | Rejected

  /**
   * `addPosition`: both coordinates must be numbers, otherwise it throws
   * before touching the store.  Otherwise exactly one record is appended
   * under the old counter value, with every missing optional property
   * defaulted to `null` and a missing page to 1.
   */
  function Add(st: Store, spec: AddSpec): (out: AddOutcome)
    ensures out.Rejected? <==> !(spec.xPercent.Number? && spec.yPercent.Number?)
    ensures out.Added? ==>
              && out.store.positions == st.positions + [out.record]
              && out.store.undo == st.undo
              && out.store.nextId == st.nextId + 1
              && out.record.id == st.nextId
              && out.record.page == (if spec.page.Some? then spec.page.value else 1)
              && Number(out.record.xPercent) == spec.xPercent
              && Number(out.record.yPercent) == spec.yPercent
              && out.record.labelText == OrNull(spec.labelText)
              && out.record.image == OrNull(spec.image)
              && out.record.widthPercent == OrNull(spec.widthPercent)
              && out.record.heightPercent == OrNull(spec.heightPercent)
  {
    if !(spec.xPercent.Number? && spec.yPercent.Number?) then Rejected
    else
      var st' := Append(st, FromSpec(spec));
      Added(st', st'.positions[|st.positions|])
  }

  /**
   * Every record `addPosition` creates is drawn as a rectangle, even a
   * plain click: width and height default to `null`, which is not
   * `undefined`.  None of them can be dragged.
   */
  lemma AddedRecordIsRect(st: Store, spec: AddSpec)
    requires Add(st, spec).Added?
    ensures Classify(Add(st, spec).record) == RectMarker
    ensures !Draggable(Add(st, spec).record)
  {
  }

  lemma AddPreservesValid(st: Store, spec: AddSpec)
    requires Valid(st)
    ensures Add(st, spec).Added? ==> Valid(Add(st, spec).store)
  {
    if spec.xPercent.Number? && spec.yPercent.Number? {
      AppendPreservesValid(st, FromSpec(spec));
    }
  }

  /** `findIndex(p => p.id === id)`: the first index holding `id`, or -1. */
  function IndexOf(rs: seq<Record>, id: nat): (k: int)
    ensures -1 <= k < |rs|
    ensures k == -1 <==> !HasId(rs, id)
    ensures k >= 0 ==> rs[k].id == id && forall j | 0 <= j < k :: rs[j].id != id
    decreases |rs|
  {
    if |rs| == 0 then -1
    else if rs[0].id == id then 0
    else
      var k := IndexOf(rs[1..], id);
      if k == -1 then
        assert forall j | 1 <= j < |rs| :: rs[j] == rs[1..][j - 1];
        -1
      else
        assert forall j | 1 <= j <= k + 1 :: rs[j] == rs[1..][j - 1];
        k + 1
  }

  /** `rs` with the element at index `k` spliced out. */
  function RemoveAt(rs: seq<Record>, k: nat): (out: seq<Record>)
    requires k < |rs|
    ensures |out| == |rs| - 1
    ensures multiset(out) + multiset{rs[k]} == multiset(rs)
  {
    assert rs == rs[..k] + [rs[k]] + rs[k + 1..];
    rs[..k] + rs[k + 1..]
  }

  /**
   * `removePosition(id)`: an unknown identifier returns `null` and changes
   * nothing; otherwise the first record with that identifier is spliced
   * out, the others keep their order, and the removed record is pushed
   * onto the undo stack.
   */
  function Remove(st: Store, id: nat): (out: (Store, Option<Record>))
    ensures out.1.None? <==> !HasId(st.positions, id)
    ensures out.1.None? ==> out.0 == st
    ensures out.1.Some? ==>
              exists k | 0 <= k < |st.positions| ::
                && st.positions[k] == out.1.value
                && (forall j | 0 <= j < k :: st.positions[j].id != id)
                && out.0.positions == st.positions[..k] + st.positions[k + 1..]
    ensures out.1.Some? ==>
              && out.1.value.id == id
              && out.0.undo == st.undo + [out.1.value]
              && out.0.nextId == st.nextId
              && multiset(out.0.positions) + multiset{out.1.value} == multiset(st.positions)
  {
    var k := IndexOf(st.positions, id);
    if k == -1 then (st, None)
    else
      var removed := st.positions[k];
      (Store(RemoveAt(st.positions, k), st.undo + [removed], st.nextId), Some(removed))
  }

  /** Splicing a record out keeps the others distinct and drops its identifier. */
  lemma RemoveAtKeepsDistinct(rs: seq<Record>, k: nat)
    requires DistinctIds(rs) && k < |rs|
    ensures DistinctIds(RemoveAt(rs, k))
    ensures forall r | r in RemoveAt(rs, k) :: r in rs && r.id != rs[k].id
  {
    var out := RemoveAt(rs, k);
    assert forall i | 0 <= i < |out| :: out[i] == rs[if i < k then i else i + 1];
  }

  lemma RemovePreservesValid(st: Store, id: nat)
    requires Valid(st)
    ensures Valid(Remove(st, id).0)
  {
    var k := IndexOf(st.positions, id);
    if k != -1 {
      var st' := Remove(st, id).0;
      var removed := st.positions[k];
      RemoveAtKeepsDistinct(st.positions, k);
      assert st'.positions == RemoveAt(st.positions, k);
      assert removed in st.positions;
      assert st'.undo == st.undo + [removed];
      forall i, j | 0 <= i < j < |st'.undo|
        ensures st'.undo[i].id != st'.undo[j].id
      {
        if j == |st.undo| {
          assert st.undo[i] in st.undo;
        }
      }
    }
  }

  /**
   * `undoLast()`: on an empty stack returns `null` and changes nothing;
   * otherwise pops the most recently removed record and appends it, with
   * its original identifier and fields, at the end of the list.
   */
  function Undo(st: Store): (out: (Store, Option<Record>))
    ensures out.1.None? <==> |st.undo| == 0
    ensures out.1.None? ==> out.0 == st
    ensures out.1.Some? ==>
              && out.1.value == st.undo[|st.undo| - 1]
              && out.0.undo == st.undo[..|st.undo| - 1]
              && out.0.positions == st.positions + [out.1.value]
              && out.0.nextId == st.nextId
  {
    if |st.undo| == 0 then (st, None)
    else
      var last := st.undo[|st.undo| - 1];
      (Store(st.positions + [last], st.undo[..|st.undo| - 1], st.nextId), Some(last))
  }

  lemma UndoPreservesValid(st: Store)
    requires Valid(st)
    ensures Valid(Undo(st).0)
  {
    if |st.undo| > 0 {
      var st' := Undo(st).0;
      var last := st.undo[|st.undo| - 1];
      forall i, j | 0 <= i < j < |st'.positions|
        ensures st'.positions[i].id != st'.positions[j].id
      {
        if j == |st.positions| {
          assert st.positions[i] in st.positions && last in st.undo;
        }
      }
      forall p, u | p in st'.positions && u in st'.undo
        ensures p.id != u.id
      {
        var j :| 0 <= j < |st'.undo| && st'.undo[j] == u;
        assert u == st.undo[j] && u in st.undo;
        if p == last {
          assert j < |st.undo| - 1;
        }
      }
    }
  }

  /**
   * Removing a record and undoing at once restores an equal record, with
   * its original identifier, at the end of the list, and leaves the undo
   * stack as it was.
   */
  lemma RemoveThenUndo(st: Store, id: nat)
    requires HasId(st.positions, id)
    ensures var (mid, removed) := Remove(st, id);
            var (st', restored) := Undo(mid);
            && removed.Some? && restored == removed
            && removed.value.id == id
            && st'.undo == st.undo
            && st'.nextId == st.nextId
            && st'.positions == mid.positions + [removed.value]
            && multiset(st'.positions) == multiset(st.positions)
  {
    var (mid, removed) := Remove(st, id);
    var (st', restored) := Undo(mid);
    assert mid.undo[..|mid.undo| - 1] == st.undo;
  }

  /** `clearPositions()`: drops every record and the whole undo history; the counter is kept. */
  function Clear(st: Store): (st': Store)
    ensures st'.positions == [] && st'.undo == []
    ensures st'.nextId == st.nextId
    ensures Valid(st')
  {
    Store([], [], st.nextId)
  }

  /** After a clear there is nothing to undo. */
  lemma ClearThenUndo(st: Store)
    ensures Undo(Clear(st)).1 == None
    ensures Undo(Clear(st)).0 == Clear(st)
  {
  }
}
