/**
 * Every operation of the component preserves the session invariant:
 * identifiers in the list and the undo stack are distinct and below the
 * counter, every page overlay shows exactly its page's records in list
 * order, and no listener is attached while add mode is off.
 */
module ViewerInvariants {

  import opened Wrappers
  import opened Records
  import Store
  import Overlay
  import Persistence
  import Export
  import Controller
  import opened Viewer

  lemma NewInv(key: string, storage: Persistence.Storage)
    ensures Inv(New(key, storage))
  {
    Store.EmptyValid();
  }

  lemma AddPositionInv(s: Session, spec: AddSpec)
    requires Inv(s)
    ensures Inv(AddPosition(s, spec).0)
  {
    Store.AddPreservesValid(s.store, spec);
    var out := Store.Add(s.store, spec);
    if out.Added? {
      Overlay.RenderMarkerKeepsConsistent(s.overlay, s.store.positions, out.record);
    }
  }

  lemma RemovePositionInv(s: Session, id: nat)
    requires Inv(s)
    ensures Inv(RemovePosition(s, id).0)
  {
    Store.RemovePreservesValid(s.store, id);
    var k := Store.IndexOf(s.store.positions, id);
    if k != -1 {
      var st := Store.Remove(s.store, id).0;
      assert st.positions == s.store.positions[..k] + s.store.positions[k + 1..];
      Overlay.RemoveMarkerKeepsConsistent(s.overlay, s.store.positions, k);
      var s' := RemovePosition(s, id).0;
      assert s'.store == st && s'.overlay == Overlay.RemoveMarker(s.overlay, id) && s'.ctrl == s.ctrl;
    }
  }

  lemma UndoLastInv(s: Session)
    requires Inv(s)
    ensures Inv(UndoLast(s).0)
  {
    Store.UndoPreservesValid(s.store);
    if |s.store.undo| > 0 {
      Overlay.RenderMarkerKeepsConsistent(s.overlay, s.store.positions, s.store.undo[|s.store.undo| - 1]);
    }
  }

  lemma ClearPositionsInv(s: Session)
    requires Inv(s)
    ensures Inv(ClearPositions(s))
  {
    Overlay.ClearMarkersConsistent(s.overlay);
  }

  lemma RestoreOneInv(s: Session, p: Record)
    requires Inv(s)
    ensures Inv(RestoreOne(s, p))
  {
    Store.AppendPreservesValid(s.store, p);
    var st := Store.Append(s.store, p);
    Overlay.RenderMarkerKeepsConsistent(s.overlay, s.store.positions, st.positions[|s.store.positions|]);
  }

  lemma {:induction false} RestoreEachInv(s: Session, items: seq<Persistence.JsonItem>)
    requires Inv(s)
    ensures Inv(RestoreEach(s, items))
    decreases |items|
  {
    if |items| > 0 && items[0].Object? {
      RestoreOneInv(s, items[0].record);
      RestoreEachInv(RestoreOne(s, items[0].record), items[1..]);
    }
  }

  lemma RestoreInv(s: Session, items: seq<Persistence.JsonItem>)
    requires Inv(s)
    ensures Inv(Restore(s, items))
  {
    RestoreEachInv(s, items);
  }

  lemma {:induction false} RunPendingInv(s: Session, queue: seq<seq<Persistence.JsonItem>>)
    requires Inv(s)
    ensures Inv(RunPending(s, queue))
    decreases |queue|
  {
    if |queue| > 0 {
      RestoreInv(s, queue[0]);
      RunPendingInv(Restore(s, queue[0]), queue[1..]);
    }
  }

  lemma EnablePersistenceInv(s: Session, enable: bool)
    requires Inv(s)
    ensures Inv(EnablePersistence(s, enable))
  {
    var s' := s.(persist := enable);
    if enable && s'.storageKey in s'.storage && s'.storage[s'.storageKey].ArrayOf? && s'.doc.Some? {
      RestoreInv(s', s'.storage[s'.storageKey].items);
    }
  }

  lemma RenderAllPagesInv(s: Session, pages: seq<Export.Viewport>)
    requires Inv(s)
    ensures Inv(RenderAllPages(s, pages))
  {
    Overlay.RenderAllConsistent(|pages|, s.store.positions);
  }

  lemma LoadDocumentInv(s: Session, pages: seq<Export.Viewport>)
    requires Inv(s)
    ensures Inv(LoadDocument(s, pages))
  {
    RenderAllPagesInv(s.(doc := Some(pages)), pages);
    var s' := Emit(RenderAllPages(s.(doc := Some(pages)), pages), Loaded(|pages|));
    RunPendingInv(s'.(pending := []), s.pending);
  }

  lemma ZoomToInv(s: Session, scale: real)
    requires Inv(s)
    ensures Inv(ZoomTo(s, scale))
  {
    if s.doc.Some? {
      RenderAllPagesInv(s.(renderScale := Some(Geometry.ZoomClamp(scale))), s.doc.value);
    }
  }

  lemma SaveHandwriteInv(s: Session, k: nat, image: string)
    requires Inv(s)
    ensures Inv(SaveHandwrite(s, k, image))
  {
    if k < |s.modals| {
      var r := HandwriteRecord(s.modals[k], image);
      Store.AppendPreservesValid(s.store, r);
      var st := Store.Append(s.store, r);
      Overlay.RenderMarkerKeepsConsistent(s.overlay, s.store.positions, st.positions[|s.store.positions|]);
    }
  }

  /** Changing only coordinates keeps identifiers and pages, so the invariant. */
  lemma MoveAtInv(s: Session, k: nat, x: real, y: real)
    requires Inv(s) && k < |s.store.positions|
    ensures Inv(s.(store := s.store.(positions := MoveAt(s.store.positions, k, x, y))))
  {
    var ps, ps' := s.store.positions, MoveAt(s.store.positions, k, x, y);
    assert forall j | 0 <= j < |ps| :: ps'[j].id == ps[j].id && ps'[j].page == ps[j].page;
    forall p | p in s.overlay
      ensures s.overlay[p] == Overlay.IdsOnPage(ps', p)
    {
      Overlay.IdsOnPageSameShape(ps, ps', p);
    }
    forall r | r in ps'
      ensures r.id < s.store.nextId && forall u | u in s.store.undo :: r.id != u.id
    {
      var j :| 0 <= j < |ps'| && ps'[j] == r;
      assert ps[j] in ps;
    }
  }

  lemma DragMarkerInv(s: Session, id: nat, moves: seq<(real, real)>, width: PosReal, height: PosReal)
    requires Inv(s)
    ensures Inv(DragMarker(s, id, moves, width, height))
  {
    var k := Store.IndexOf(s.store.positions, id);
    if k != -1 && Draggable(s.store.positions[k]) && s.store.positions[k].page in s.overlay
       && s.store.positions[k].page in s.captured {
      var r := s.store.positions[k];
      var x := Geometry.DragRelease(r.xPercent, r.xPercent, seq(|moves|, i requires 0 <= i < |moves| => moves[i].0), width);
      var y := Geometry.DragRelease(r.yPercent, r.yPercent, seq(|moves|, i requires 0 <= i < |moves| => moves[i].1), height);
      MoveAtInv(s, k, x, y);
    }
  }

  /** The invariant reads only the store, the overlays and the controller. */
  lemma FrameInv(s: Session, s': Session)
    requires Inv(s)
    requires s'.store == s.store && s'.overlay == s.overlay && s'.ctrl == s.ctrl
    ensures Inv(s')
  {
  }

  lemma EnableAddModeInv(s: Session, m: Controller.Mode)
    requires Inv(s)
    ensures Inv(EnableAddMode(s, m))
  {
    Controller.EnableAddModeKeepsQuiet(s.ctrl, m);
  }

  lemma ConfirmLabelInv(s: Session, input: string)
    requires Inv(s)
    ensures Inv(ConfirmLabel(s, input))
  {
    if s.editor.Some? {
      AddPositionInv(s, DraftSpec(s.editor.value, input));
    }
  }

  lemma DrawPositionInv(s: Session, t: Target, dx: real, dy: real)
    requires Inv(s)
    ensures Inv(DrawPosition(s, t, dx, dy))
  {
    Controller.EnableAddModeKeepsQuiet(s.ctrl, Controller.Off);
  }

  /** Every public method and event handler of the component. */
  datatype Op =
    | AddOp(spec: AddSpec)
    | RemoveOp(id: nat)
    | UndoOp
    | ClearOp
    | EnablePersistenceOp(enable: bool)
    | LoadOp(pages: seq<Export.Viewport>)
    | ZoomToOp(scale: real)
    | ZoomInOp
    | ZoomOutOp
    | EnableAddModeOp(mode: Controller.Mode)
    | ClickOp(target: Target, dx: real, dy: real)
    | RectDragOp(target: Target, sx: real, sy: real, ex: real, ey: real)
    | ConfirmLabelOp(input: string)
    | CancelLabelOp
    | DrawPositionOp(target: Target, dx: real, dy: real)
    | SaveHandwriteOp(modal: nat, image: string)
    | CancelHandwriteOp(modal: nat)
    | DragOp(id: nat, moves: seq<(real, real)>, width: PosReal, height: PosReal)

  function Step(s: Session, op: Op): Session {
    match op
    case AddOp(spec) => AddPosition(s, spec).0
    case RemoveOp(id) => RemovePosition(s, id).0
    case UndoOp => UndoLast(s).0
    case ClearOp => ClearPositions(s)
    case EnablePersistenceOp(enable) => EnablePersistence(s, enable)
    case LoadOp(pages) => LoadDocument(s, pages)
    case ZoomToOp(scale) => ZoomTo(s, scale)
    case ZoomInOp => ZoomIn(s)
    case ZoomOutOp => ZoomOut(s)
    case EnableAddModeOp(m) => EnableAddMode(s, m)
    case ClickOp(t, dx, dy) => Click(s, t, dx, dy)
    case RectDragOp(t, sx, sy, ex, ey) => RectDrag(s, t, sx, sy, ex, ey)
    case ConfirmLabelOp(input) => ConfirmLabel(s, input)
    case CancelLabelOp => CancelLabel(s)
    case DrawPositionOp(t, dx, dy) => DrawPosition(s, t, dx, dy)
    case SaveHandwriteOp(k, image) => SaveHandwrite(s, k, image)
    case CancelHandwriteOp(k) => CancelHandwrite(s, k)
    case DragOp(id, moves, w, h) => DragMarker(s, id, moves, w, h)
  }

  /** The store API keeps the invariant. */
  lemma StoreStepInv(s: Session, op: Op)
    requires Inv(s)
    requires op.AddOp? || op.RemoveOp? || op.UndoOp? || op.ClearOp?
    ensures Inv(Step(s, op))
  {
    if op.AddOp? {
      AddPositionInv(s, op.spec);
    } else if op.RemoveOp? {
      RemovePositionInv(s, op.id);
    } else if op.UndoOp? {
      UndoLastInv(s);
    } else {
      ClearPositionsInv(s);
    }
  }

  /** Persistence, loading and zooming keep the invariant. */
  lemma DocumentStepInv(s: Session, op: Op)
    requires Inv(s)
    requires op.EnablePersistenceOp? || op.LoadOp? || op.ZoomToOp? || op.ZoomInOp? || op.ZoomOutOp?
    ensures Inv(Step(s, op))
  {
    if op.EnablePersistenceOp? {
      assert Step(s, op) == EnablePersistence(s, op.enable);
      EnablePersistenceInv(s, op.enable);
    } else if op.LoadOp? {
      assert Step(s, op) == LoadDocument(s, op.pages);
      LoadDocumentInv(s, op.pages);
    } else if op.ZoomToOp? {
      assert Step(s, op) == ZoomTo(s, op.scale);
      ZoomToInv(s, op.scale);
    } else if op.ZoomInOp? {
      assert Step(s, op) == ZoomTo(s, CurrentScale(s) + 0.25);
      ZoomToInv(s, CurrentScale(s) + 0.25);
    } else {
      assert Step(s, op) == ZoomTo(s, CurrentScale(s) - 0.25);
      ZoomToInv(s, CurrentScale(s) - 0.25);
    }
  }

  /** Add-mode changes and pointer gestures keep the invariant. */
  lemma PointerStepInv(s: Session, op: Op)
    requires Inv(s)
    requires op.EnableAddModeOp? || op.ClickOp? || op.RectDragOp? || op.DrawPositionOp? || op.DragOp?
    ensures Inv(Step(s, op))
  {
    if op.EnableAddModeOp? {
      assert Step(s, op) == EnableAddMode(s, op.mode);
      EnableAddModeInv(s, op.mode);
    } else if op.ClickOp? {
      assert Step(s, op) == Click(s, op.target, op.dx, op.dy);
      FrameInv(s, Click(s, op.target, op.dx, op.dy));
    } else if op.RectDragOp? {
      assert Step(s, op) == RectDrag(s, op.target, op.sx, op.sy, op.ex, op.ey);
      FrameInv(s, RectDrag(s, op.target, op.sx, op.sy, op.ex, op.ey));
    } else if op.DrawPositionOp? {
      assert Step(s, op) == DrawPosition(s, op.target, op.dx, op.dy);
      DrawPositionInv(s, op.target, op.dx, op.dy);
    } else {
      assert Step(s, op) == DragMarker(s, op.id, op.moves, op.width, op.height);
      DragMarkerInv(s, op.id, op.moves, op.width, op.height);
    }
  }

  /** The label editor's and the handwriting modal's buttons keep the invariant. */
  lemma EditorStepInv(s: Session, op: Op)
    requires Inv(s)
    requires op.ConfirmLabelOp? || op.CancelLabelOp? || op.SaveHandwriteOp? || op.CancelHandwriteOp?
    ensures Inv(Step(s, op))
  {
    if op.ConfirmLabelOp? {
      assert Step(s, op) == ConfirmLabel(s, op.input);
      ConfirmLabelInv(s, op.input);
    } else if op.CancelLabelOp? {
      assert Step(s, op) == CancelLabel(s);
      FrameInv(s, CancelLabel(s));
    } else if op.SaveHandwriteOp? {
      assert Step(s, op) == SaveHandwrite(s, op.modal, op.image);
      SaveHandwriteInv(s, op.modal, op.image);
    } else {
      assert Step(s, op) == CancelHandwrite(s, op.modal);
      FrameInv(s, CancelHandwrite(s, op.modal));
    }
  }

  lemma StepInv(s: Session, op: Op)
    requires Inv(s)
    ensures Inv(Step(s, op))
  {
    if op.AddOp? || op.RemoveOp? || op.UndoOp? || op.ClearOp? {
      StoreStepInv(s, op);
    } else if op.EnablePersistenceOp? || op.LoadOp? || op.ZoomToOp? || op.ZoomInOp? || op.ZoomOutOp? {
      DocumentStepInv(s, op);
    } else if op.EnableAddModeOp? || op.ClickOp? || op.RectDragOp? || op.DrawPositionOp? || op.DragOp? {
      PointerStepInv(s, op);
    } else {
      EditorStepInv(s, op);
    }
  }

  function Run(s: Session, ops: seq<Op>): Session
    decreases |ops|
  {
    if |ops| == 0 then s else Step(Run(s, ops[..|ops| - 1]), ops[|ops| - 1])
  }

  /**
   * From a fresh component, any sequence of calls and pointer events
   * keeps identifiers unique and issued by the counter, and keeps every
   * overlay showing each record of its page exactly once.
   */
  lemma {:induction false} RunInv(key: string, storage: Persistence.Storage, ops: seq<Op>)
    ensures Inv(Run(New(key, storage), ops))
    ensures var s := Run(New(key, storage), ops);
            && (forall k | 0 <= k < |s.store.positions| && s.store.positions[k].page in s.overlay ::
                  multiset(s.overlay[s.store.positions[k].page])[s.store.positions[k].id] == 1)
            && (forall r | r in s.store.positions + s.store.undo :: r.id < s.store.nextId)
    decreases |ops|
  {
    if |ops| == 0 {
      NewInv(key, storage);
    } else {
      RunInv(key, storage, ops[..|ops| - 1]);
      StepInv(Run(New(key, storage), ops[..|ops| - 1]), ops[|ops| - 1]);
    }
    var s := Run(New(key, storage), ops);
    Overlay.ConsistentShowsEachOnce(s.overlay, s.store.positions);
  }
}
