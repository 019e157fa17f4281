/** The linear base-to-pixel map both placers draw with. LinearDrawingModel.ts is not part of this
    model; it is taken to be what its use in the placers needs: a linear map with a positive scale
    (pixels per base), `baseToX(b) = (b - regionStart) * pixelsPerBase`. */
module Drawing {
  import opened OpenIntervals

  datatype DrawModel = DrawModel(regionStart: real, pixelsPerBase: real) {

    predicate Valid() {
      pixelsPerBase > 0.0
    }

    function BaseToX(base: real): real {
      (base - regionStart) * pixelsPerBase
    }

    function BasesToXWidth(bases: real): real {
      bases * pixelsPerBase
    }

    function XWidthToBases(pixels: real): real
      requires Valid()
    {
      pixels / pixelsPerBase
    }

    function BaseSpanToXSpan(span: OpenInterval): OpenInterval {
      OpenInterval(BaseToX(span.start), BaseToX(span.end))
    }
  }

  /** `baseToX` is monotone, and the distance between two mapped bases is the mapped width of their distance. */
  lemma BaseToXMonotoneLinear(draw: DrawModel, a: real, b: real)
    requires draw.Valid() && a <= b
    ensures draw.BaseToX(a) <= draw.BaseToX(b)
    ensures draw.BaseToX(b) - draw.BaseToX(a) == draw.BasesToXWidth(b - a)
  {
  }

  /** Mapped widths keep the order of the widths in bases. */
  lemma WidthMonotone(draw: DrawModel, u: real, v: real)
    requires draw.Valid() && u <= v
    ensures draw.BasesToXWidth(u) <= draw.BasesToXWidth(v)
  {
    assert draw.BasesToXWidth(v) - draw.BasesToXWidth(u) == (v - u) * draw.pixelsPerBase;
  }

  /** The mapped width of two adjacent stretches is the sum of their mapped widths. */
  lemma WidthAdditive(draw: DrawModel, u: real, v: real)
    ensures draw.BasesToXWidth(u) + draw.BasesToXWidth(v) == draw.BasesToXWidth(u + v)
  {
  }
}
