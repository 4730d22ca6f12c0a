/**
 * Annotation records as the web component stores them in `_positions`,
 * and the three-way classification `_renderMarker` applies to them.
 *
 * A JavaScript object property has three observable states: missing
 * (`undefined`), `null`, or a value.  The classification tests
 * `!== undefined`, so `null` and missing behave differently and both
 * are kept apart here.
 */
module Records {

  import opened Wrappers

  /** One property of a JavaScript object: missing, `null`, or a value. */
  datatype Field<+T> = Absent | Null | Val(value: T) {
    /** The source's `x !== undefined`. */
    predicate Defined() {
      !Absent?
    }
  }

  /** An annotation record (`{id, page, xPercent, yPercent, label, widthPercent, heightPercent, image}`); `label` is a Dafny keyword, hence `labelText`. */
  datatype Record = Record(
    id: nat,
    page: int,
    xPercent: real,
    yPercent: real,
    labelText: Field<string>,
    widthPercent: Field<real>,
    heightPercent: Field<real>,
    image: Field<string>)

  /** The three marker shapes `_renderMarker` can draw. */
  datatype Shape = RectMarker | ImageMarker | PointMarker

  /** JavaScript truthiness of an optional string property: set and non-empty. */
  predicate TruthyText(f: Field<string>) {
    f.Val? && f.value != ""
  }

  /** The branch `_renderMarker` takes for a record. */
  function Classify(r: Record): Shape {
    if r.widthPercent.Defined() && r.heightPercent.Defined() then RectMarker
    else if TruthyText(r.image) then ImageMarker
    else PointMarker
  }

  /** Only the point branch attaches the drag handler to its marker. */
  predicate Draggable(r: Record) {
    Classify(r) == PointMarker
  }

  /** Identifiers of a sequence of records are pairwise distinct. */
  predicate DistinctIds(rs: seq<Record>) {
    forall i, j | 0 <= i < j < |rs| :: rs[i].id != rs[j].id
  }

  /** Whether some record of `rs` carries identifier `id`. */
  predicate HasId(rs: seq<Record>, id: nat) {
    exists k | 0 <= k < |rs| :: rs[k].id == id
  }

  /** The JavaScript value passed for a coordinate: a number or something else. */
  datatype Coordinate = Number(value: real) | NotNumber

  /**
   * The argument object of `addPosition`.  A missing `page` is `None`;
   * every other optional property keeps its three-way state.
   */
  datatype AddSpec = AddSpec(
    page: Option<int>,
    xPercent: Coordinate,
    yPercent: Coordinate,
    labelText: Field<string>,
    widthPercent: Field<real>,
    heightPercent: Field<real>,
    image: Field<string>)

  /** A destructuring default `= null`: applies only when the property is missing. */
  function OrNull<T>(f: Field<T>): (g: Field<T>)
    ensures g.Defined()
    ensures f.Defined() ==> g == f
    ensures f.Absent? ==> g == Null
  {
    if f.Absent? then Null else f
  }
}
