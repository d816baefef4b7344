/** Layout span resolution of src/components/blk.rs: a block's edge or size
    along one axis is a `Dim`, and three of them (start, size, end) resolve
    to the block's offset and length inside a parent of extent `max`.
    Arithmetic is over `real`; the source's `f32` rounding is not modelled. */
module Blk {

  import Results

  /** A dimension: absent, a percentage of the parent's extent, pixels, or
      density-independent pixels. */
  datatype Dim = None | Pc(v: real) | Px(v: real) | Dp(v: real)
  {
    /** `Dim::is_some`. */
    predicate IsSome()
    {
      !None?
    }

    /** `Dim::to_px`: the dimension in pixels, for a parent extent `max` and
        a device pixel ratio. Absent dimensions have no pixel value (the
        source panics). */
    function ToPx(max: real, pixelRatio: real): (px: real)
      requires IsSome()
      ensures Px? ==> px == v
      ensures Pc? ==> 100.0 * px == max * v
      ensures Dp? ==> px == v * pixelRatio
    {
      match this
      case Px(v) => v
      case Pc(v) => max * v / 100.0
      case Dp(v) => v * pixelRatio
    }
  }

  datatype SpanError = OverConstrained | BadConstraints

  /** Bit `k` (0, 1 or 2) of `c`. */
  function Bit(c: nat, k: nat): (b: bool)
    requires k <= 2
  {
    (if k == 0 then c else if k == 1 then c / 2 else c / 4) % 2 == 1
  }

  /** The presence mask `c` of `compute_span`: bit 2 for start, bit 1 for
      size, bit 0 for end. */
  function Mask(start: Dim, size: Dim, end: Dim): (c: nat)
    ensures 0 <= c <= 7
    ensures Bit(c, 2) <==> start != None
    ensures Bit(c, 1) <==> size != None
    ensures Bit(c, 0) <==> end != None
  {
    (if start.IsSome() then 4 else 0) + (if size.IsSome() then 2 else 0) + (if end.IsSome() then 1 else 0)
  }

  /** The layout rule `compute_span` implements, for a span `(offset, length)`
      in a parent of extent `max`: a given start is the offset, a given size
      the length, a given end the gap left after the span; with no size, a
      missing start or end is 0 (the span stretches to that edge); with only
      a size, the span is centred. */
  ghost predicate Resolves(max: real, pr: real, start: Dim, size: Dim, end: Dim, span: (real, real))
  {
    var offset := span.0;
    var length := span.1;
    var gap := max - offset - length;
    && (start.IsSome() ==> offset == start.ToPx(max, pr))
    && (size.IsSome() ==> length == size.ToPx(max, pr))
    && (end.IsSome() ==> gap == end.ToPx(max, pr))
    && (!size.IsSome() && !start.IsSome() ==> offset == 0.0)
    && (!size.IsSome() && !end.IsSome() ==> gap == 0.0)
    && (size.IsSome() && !start.IsSome() && !end.IsSome() ==> offset == gap)
  }

  /** `Dim::compute_span`: the `(offset, length)` of a block along one axis.
      It fails exactly when start, size and end are all given; otherwise the
      span it returns meets the layout rule `Resolves`. */
  function ComputeSpan(max: real, pr: real, start: Dim, size: Dim, end: Dim)
    : (r: Results.Result<(real, real), SpanError>)
    ensures r.Failure? <==> start.IsSome() && size.IsSome() && end.IsSome()
    ensures r.Failure? ==> r.error == OverConstrained
    ensures r.Success? ==> Resolves(max, pr, start, size, end, r.value)
  {
    var c := Mask(start, size, end);
    match c
    case 0 => Results.Success((0.0, max))
    case 1 => Results.Success((0.0, max - end.ToPx(max, pr)))
    case 2 => Results.Success(((max - size.ToPx(max, pr)) / 2.0, size.ToPx(max, pr)))
    case 3 => Results.Success((max - size.ToPx(max, pr) - end.ToPx(max, pr), size.ToPx(max, pr)))
    case 4 => Results.Success((start.ToPx(max, pr), max - start.ToPx(max, pr)))
    case 5 => Results.Success((start.ToPx(max, pr), max - start.ToPx(max, pr) - end.ToPx(max, pr)))
    case 6 => Results.Success((start.ToPx(max, pr), size.ToPx(max, pr)))
    case 7 => Results.Failure(OverConstrained)
    case _ => assert false; Results.Failure(BadConstraints)
  }

  /** The layout rule leaves no choice: when it is not over-constrained, at
      most one span meets it, so `ComputeSpan` returns the only one. */
  lemma SpanUnique(max: real, pr: real, start: Dim, size: Dim, end: Dim, x: (real, real), y: (real, real))
    requires !(start.IsSome() && size.IsSome() && end.IsSome())
    requires Resolves(max, pr, start, size, end, x) && Resolves(max, pr, start, size, end, y)
    ensures x == y
  {
  }

  /** The cases of `compute_span` spelt out: no constraint fills the parent;
      a size alone is centred; a start with a size is taken as given; in every
      other case where a start or an end is given, the span reaches from its
      offset to `max` less the end (an absent end counting as 0). */
  lemma SpanCases(max: real, pr: real, start: Dim, size: Dim, end: Dim)
    ensures var r := ComputeSpan(max, pr, start, size, end);
      && (start == None && size == None && end == None ==> r == Results.Success((0.0, max)))
      && (start == None && size != None && end == None ==>
            r.Success? && 2.0 * r.value.0 + r.value.1 == max && r.value.1 == size.ToPx(max, pr))
      && (start != None && size != None && end == None ==>
            r == Results.Success((start.ToPx(max, pr), size.ToPx(max, pr))))
      && ((start != None || end != None) && !(start != None && size != None) ==>
            r.Success? && r.value.0 + r.value.1 + (if end != None then end.ToPx(max, pr) else 0.0) == max)
  {
  }
}
