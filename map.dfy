/** `Pippa::Map` without its image library: a map keeps the style of its
    dots, a queue of pending dots, and the batches of primitives drawn onto
    its image so far. Dots are only drawn when the queue is flushed, by
    `render` itself, by a style setter (which flushes before it stores the
    new value) or by a `to_xxx` / `write_xxx` call. */
module Pippa {
  import opened Common
  import opened Dots
  import Catalog
  import Formats
  import Projection
  import Zipcodes

  /** The five style attributes of a map. */
  datatype Style = Style(pointSize: real, fill: string, stroke: string, fillOpacity: real, strokeWidth: real)

  /** The style a new map starts with. */
  const DefaultStyle := Style(1.0, "DarkRed", "gray25", 0.85, 1.0)

  /** The settings `new_gc` gives a graphics context; the point size is not
      among them, it only scales the dots. */
  datatype Pen = Pen(fill: string, stroke: string, fillOpacity: real, strokeWidth: real)

  function PenOf(s: Style): Pen
  {
    Pen(s.fill, s.stroke, s.fillOpacity, s.strokeWidth)
  }

  /** Two styles give the same graphics context exactly when they agree on
      the fill, the stroke, the fill opacity and the stroke width; the point
      size never shows in the pen. */
  lemma SamePenSameDrawnStyle(s: Style, t: Style)
    ensures PenOf(s) == PenOf(t)
      <==> s.fill == t.fill && s.stroke == t.stroke && s.fillOpacity == t.fillOpacity && s.strokeWidth == t.strokeWidth
    ensures PenOf(s.(pointSize := t.pointSize)) == PenOf(s)
  {
  }

  /** One `gc.draw(@image)`: the primitives of a graphics context and the
      pen they were drawn with. */
  datatype Batch = Batch(pen: Pen, shapes: seq<Shape>)

  /** The attribute setters `point_size=`, `fill=`, `stroke=`,
      `fill_opacity=` and `stroke_width=`, with the value each stores. */
  datatype Setter =
    | PointSize(size: real)
    | Fill(color: string)
    | Stroke(color: string)
    | FillOpacity(opacity: real)
    | StrokeWidth(width: real)

  /** The style after a setter has stored its value: only its own attribute changes. */
  function Applied(s: Style, setter: Setter): Style
  {
    match setter
    case PointSize(v) => s.(pointSize := v)
    case Fill(c) => s.(fill := c)
    case Stroke(c) => s.(stroke := c)
    case FillOpacity(v) => s.(fillOpacity := v)
    case StrokeWidth(v) => s.(strokeWidth := v)
  }

  /** The size of the map's image file. */
  datatype ImageSize = ImageSize(columns: nat, rows: nat)

  /** What `to_blob` encodes and `write` saves: the image with every batch
      drawn on it, in the format last set. */
  datatype Picture = Picture(size: ImageSize, batches: seq<Batch>, format: string)

  /** The value of a `to_xxx` or `write_xxx` call. */
  datatype Reply = Blob(picture: Picture) | Written(path: string, picture: Picture)

  /** How `render` ends: it fails (`Math.sqrt` raises) exactly when it has
      dots to draw and one of them has a negative area. */
  function FlushOutcome(hasImage: bool, dots: seq<Dot>): Outcome
  {
    if hasImage && dots != [] && !AllNonNegative(dots) then Fail(NegativeArea) else Pass
  }

  /** What one `render` does to the pending dots `dots0` and the drawn
      batches `drawn0`, drawing with `style`. Without an image or without
      dots it changes nothing. A negative area fails before anything is
      drawn, leaving the dots sorted by area. Otherwise it draws exactly one
      batch, with the pen of `style` and the primitives of the dots largest
      area first, and empties the queue. */
  ghost predicate Flushes(hasImage: bool, style: Style, dots0: seq<Dot>, drawn0: seq<Batch>,
                           r: Outcome, dots1: seq<Dot>, drawn1: seq<Batch>)
  {
    && r == FlushOutcome(hasImage, dots0)
    && if !hasImage || dots0 == [] then
         dots1 == dots0 && drawn1 == drawn0
       else if r.Fail? then
         drawn1 == drawn0 && IsAreaOrdering(dots1, dots0)
       else
         && dots1 == []
         && |drawn1| == |drawn0| + 1
         && drawn1[..|drawn0|] == drawn0
         && drawn1[|drawn0|].pen == PenOf(style)
         && DrawsInAreaOrder(drawn1[|drawn0|].shapes, dots0, style.pointSize)
  }

  /** A flush that succeeded leaves nothing for the next one: a second
      `render` with no dot added in between changes nothing. */
  lemma SecondFlushChangesNothing(hasImage: bool, style: Style, style2: Style,
                                  dots0: seq<Dot>, drawn0: seq<Batch>, dots1: seq<Dot>, drawn1: seq<Batch>,
                                  r2: Outcome, dots2: seq<Dot>, drawn2: seq<Batch>)
    requires Flushes(hasImage, style, dots0, drawn0, Pass, dots1, drawn1)
    requires Flushes(hasImage, style2, dots1, drawn1, r2, dots2, drawn2)
    ensures r2 == Pass && dots2 == dots1 && drawn2 == drawn1
  {
  }

  /** The memoised projection: the one already built, or a new build. */
  function Memo(built: Option<Projection.Projection>, build: Result<Projection.Projection>): Result<Projection.Projection>
  {
    if built.Some? then Ok(built.value) else build
  }

  /** `@lat_lon_to_xy` after a call that needed it. */
  function Stored(got: Result<Projection.Projection>): Option<Projection.Projection>
  {
    if got.Ok? then Some(got.value) else None
  }

  class Map {
    /** `@map_info`: the map's `MAP` catalog fields, None for an unknown name. */
    const mapInfo: Option<seq<string>>
    /** `@projection_info`: its `PROJECTION` fields, if any. */
    const projectionInfo: Option<seq<string>>
    /** The image the `MAP` line names; a map of an unknown name has none. */
    const image: Option<ImageSize>
    /** The Albers conic formulas, standing for the trigonometry of
        `set_projection`. */
    const albers: Projection.AlbersFormula

    var pointSize: real
    var fill: string
    var stroke: string
    var fillOpacity: real
    var strokeWidth: real

    /** `@dots`: the dots added since the last flush. */
    var dots: seq<Dot>
    /** The style current when each pending dot was added. */
    ghost var queuedUnder: seq<Style>
    /** Every `gc.draw(@image)` so far, oldest first. */
    var drawn: seq<Batch>
    /** `@image.format`, once a `to_xxx` or `write_xxx` call has set it. */
    var format: Option<string>
    /** `@lat_lon_to_xy`, built on first use. */
    var projection: Option<Projection.Projection>

    function CurrentStyle(): Style
      reads this
    {
      Style(pointSize, fill, stroke, fillOpacity, strokeWidth)
    }

    /** `@width` and `@height`; nil (here 0) without an image, where they are
        never used because a map without an image has no catalog fields. */
    function Width(): nat
      reads this
    {
      if image.Some? then image.value.columns else 0
    }

    function Height(): nat
      reads this
    {
      if image.Some? then image.value.rows else 0
    }

    /** A map with an image never holds a dot added under an earlier style,
        because every setter flushes first; a map without one draws
        nothing. */
    ghost predicate Valid()
      reads this
    {
      && |queuedUnder| == |dots|
      && (image.Some? ==> forall k :: 0 <= k < |queuedUnder| ==> queuedUnder[k] == CurrentStyle())
      && (image.None? ==> drawn == [] && format.None?)
      && (mapInfo.Some? <==> image.Some?)
      && (projectionInfo.Some? ==> mapInfo.Some?)
    }

    /** `Map.new(name)` with catalog `info`; `columns` by `rows` is the size
        of the image file the map's `MAP` line names. Ruby calls `[]` on
        `info[:map]`, and on `info[:projection]` for a known map, so both
        tables must exist. */
    constructor (name: string, info: Catalog.Info, columns: nat, rows: nat, albers: Projection.AlbersFormula)
      requires "map" in info
      requires Some(name) in info["map"] ==> "projection" in info
      ensures Valid()
      ensures CurrentStyle() == DefaultStyle
      ensures dots == [] && drawn == [] && format == None && projection == None
      ensures mapInfo == (if Some(name) in info["map"] then Some(info["map"][Some(name)]) else None)
      ensures image == (if mapInfo.Some? then Some(ImageSize(columns, rows)) else None)
      ensures projectionInfo ==
        (if mapInfo.Some? && Some(name) in info["projection"] then Some(info["projection"][Some(name)]) else None)
      ensures this.albers == albers
    {
      pointSize := 1.0;
      fill := "DarkRed";
      stroke := "gray25";
      fillOpacity := 0.85;
      strokeWidth := 1.0;
      dots := [];
      queuedUnder := [];
      drawn := [];
      format := None;
      projection := None;
      this.albers := albers;
      if Some(name) in info["map"] {
        mapInfo := Some(info["map"][Some(name)]);
        image := Some(ImageSize(columns, rows));
        projectionInfo := if Some(name) in info["projection"] then Some(info["projection"][Some(name)]) else None;
      } else {
        mapInfo := None;
        image := None;
        projectionInfo := None;
      }
    }

    /** `add_dot(x, y, area = 0)`: queue exactly this dot at the end. */
    method AddDot(x: real, y: real, area: real := 0.0)
      requires Valid()
      modifies this
      ensures Valid()
      ensures dots == old(dots) + [Dot(x, y, area)]
      ensures queuedUnder == old(queuedUnder) + [CurrentStyle()]
      ensures CurrentStyle() == old(CurrentStyle())
      ensures drawn == old(drawn) && format == old(format) && projection == old(projection)
    {
      dots := dots + [Dot(x, y, area)];
      queuedUnder := queuedUnder + [CurrentStyle()];
    }

    /** `render`: flush the pending dots onto the image as one batch. */
    method Render() returns (r: Outcome)
      requires Valid()
      modifies this
      ensures Valid()
      ensures Flushes(image.Some?, old(CurrentStyle()), old(dots), old(drawn), r, dots, drawn)
      ensures r.Pass? && image.Some? && old(dots) != [] ==>
        forall k :: 0 <= k < |old(queuedUnder)| ==> drawn[|drawn| - 1].pen == PenOf(old(queuedUnder)[k])
      ensures r.Pass? ==> image.None? || dots == []
      ensures CurrentStyle() == old(CurrentStyle())
      ensures format == old(format) && projection == old(projection)
    {
      if image.None? || dots == [] {
        return Pass;
      }
      ghost var dots0 := dots;
      SortByAreaOrders(dots0);
      dots := SortByArea(dots);
      var style := CurrentStyle();
      queuedUnder := seq(|dots|, k => style);
      SameDotsSameSigns(dots, dots0);
      var shapes: seq<Shape> := [];
      var i := 0;
      while i < |dots|
        invariant 0 <= i <= |dots|
        invariant AllNonNegative(dots[..i])
        invariant shapes == Shapes(dots[..i], pointSize)
      {
        if dots[i].area < 0.0 {
          return Fail(NegativeArea);
        }
        assert AllNonNegative(dots[..i + 1]);
        shapes := shapes + [DotShape(dots[i], pointSize)];
        i := i + 1;
      }
      assert dots[..i] == dots;
      drawn := drawn + [Batch(PenOf(CurrentStyle()), shapes)];
      dots := [];
      queuedUnder := [];
      r := Pass;
    }

    /** The setter branch of `method_missing`: `render`, then store the
        value. The value is stored only if the flush succeeds. */
    method Set(setter: Setter) returns (r: Outcome)
      requires Valid()
      modifies this
      ensures Valid()
      ensures Flushes(image.Some?, old(CurrentStyle()), old(dots), old(drawn), r, dots, drawn)
      ensures CurrentStyle() == if r.Pass? then Applied(old(CurrentStyle()), setter) else old(CurrentStyle())
      ensures format == old(format) && projection == old(projection)
    {
      r := Render();
      if r.Fail? {
        return;
      }
      match setter
      case PointSize(v) => pointSize := v;
      case Fill(c) => fill := c;
      case Stroke(c) => stroke := c;
      case FillOpacity(v) => fillOpacity := v;
      case StrokeWidth(v) => strokeWidth := v;
    }

    /** `set_projection unless @lat_lon_to_xy`: the projection is built only
        while none is stored, and a failed build stores nothing. */
    method EnsureProjection() returns (r: Result<Projection.Projection>)
      requires Valid()
      modifies this
      ensures Valid()
      ensures r == Memo(old(projection), Projection.BuildProjection(mapInfo, projectionInfo, Width(), Height()))
      ensures projection == Stored(r)
      ensures old(projection).Some? ==> projection == old(projection)
      ensures dots == old(dots) && queuedUnder == old(queuedUnder) && drawn == old(drawn)
      ensures CurrentStyle() == old(CurrentStyle()) && format == old(format)
    {
      if projection.Some? {
        return Ok(projection.value);
      }
      r := Projection.BuildProjection(mapInfo, projectionInfo, Width(), Height());
      if r.Ok? {
        projection := Some(r.value);
      }
    }

    /** `add_at_lat_lon(lat, lon, area = 0)`: queue a dot where the
        projection puts the coordinates. */
    method AddAtLatLon(lat: real, lon: real, area: real := 0.0) returns (r: Outcome)
      requires Valid()
      modifies this
      ensures Valid()
      ensures var got := Memo(old(projection), Projection.BuildProjection(mapInfo, projectionInfo, Width(), Height()));
        && projection == Stored(got)
        && (got.Err? ==> r == Fail(got.error) && dots == old(dots))
        && (got.Ok? ==>
              var xy := Projection.Project(got.value, albers, lat, lon);
              r == Pass && dots == old(dots) + [Dot(xy.0, xy.1, area)])
      ensures |queuedUnder| == |dots| && drawn == old(drawn)
      ensures CurrentStyle() == old(CurrentStyle()) && format == old(format)
    {
      var got := EnsureProjection();
      if got.Err? {
        return Fail(got.error);
      }
      var xy := Projection.Project(got.value, albers, lat, lon);
      AddDot(xy.0, xy.1, area);
      r := Pass;
    }

    /** `add_at_zip(zip, area = 0)` with `zips` for `Map.zips`: a zip code
        that is not in the table queues nothing and changes nothing. A found
        row builds the projection first; a row whose latitude or longitude is
        not a number then fails in the projection's arithmetic. */
    method AddAtZip(zips: Zipcodes.ZipTable, zip: Option<string>, area: real := 0.0) returns (r: Outcome)
      requires Valid()
      modifies this
      ensures Valid()
      ensures zip !in zips ==>
        && r == Pass && dots == old(dots) && projection == old(projection)
      ensures zip in zips ==>
        var got := Memo(old(projection), Projection.BuildProjection(mapInfo, projectionInfo, Width(), Height()));
        var row := zips[zip];
        && projection == Stored(got)
        && (got.Err? ==> r == Fail(got.error) && dots == old(dots))
        && (got.Ok? && !(row.lat.Number? && row.long.Number?) ==>
              r == Fail(NonNumericCoordinate) && dots == old(dots))
        && (got.Ok? && row.lat.Number? && row.long.Number? ==>
              var xy := Projection.Project(got.value, albers, row.lat.value, row.long.value);
              r == Pass && dots == old(dots) + [Dot(xy.0, xy.1, area)])
      ensures |queuedUnder| == |dots| && drawn == old(drawn)
      ensures CurrentStyle() == old(CurrentStyle()) && format == old(format)
    {
      if zip !in zips {
        return Pass;
      }
      var row := zips[zip];
      var got := EnsureProjection();
      if got.Err? {
        return Fail(got.error);
      }
      if !(row.lat.Number? && row.long.Number?) {
        return Fail(NonNumericCoordinate);
      }
      var xy := Projection.Project(got.value, albers, row.lat.value, row.long.value);
      AddDot(xy.0, xy.1, area);
      r := Pass;
    }

    /** The `to_xxx` and `write_xxx` branches of `method_missing` for a
        method `name` that is not a setter, with `path` for `args[0]`:
        flush, set the image format and return the blob or the written
        image. Any other name is `super`'s NoMethodError. */
    method CallFormatMethod(name: string, path: Option<string>, formats: Formats.FormatTable) returns (r: Result<Reply>)
      requires Valid()
      modifies this
      ensures Valid()
      ensures var toFormat := Formats.ConversionToFormat("to", name, formats);
        var writeFormat := Formats.ConversionToFormat("write", name, formats);
        var fmt := if toFormat.Some? then toFormat else writeFormat;
        && (fmt.None? ==>
              r == Err(NoSuchMethod(name)) && dots == old(dots) && drawn == old(drawn) && format == old(format))
        && (fmt.Some? ==>
              var flushed := FlushOutcome(image.Some?, old(dots));
              && Flushes(image.Some?, old(CurrentStyle()), old(dots), old(drawn), flushed, dots, drawn)
              && (flushed.Fail? ==> r == Err(flushed.error) && format == old(format))
              && (flushed.Pass? && image.None? ==> r == Err(NoImage) && format == old(format))
              && (flushed.Pass? && image.Some? ==>
                    && format == fmt
                    && var picture := Picture(image.value, drawn, fmt.value);
                    if toFormat.Some? then r == Ok(Blob(picture))
                    else if path.None? then r == Err(MissingFileName)
                    else r == Ok(Written(path.value, picture))))
      ensures CurrentStyle() == old(CurrentStyle()) && projection == old(projection)
    {
      var toFormat := Formats.ConversionToFormat("to", name, formats);
      var writeFormat := Formats.ConversionToFormat("write", name, formats);
      var fmt := if toFormat.Some? then toFormat else writeFormat;
      if fmt.None? {
        return Err(NoSuchMethod(name));
      }
      var flushed := Render();
      if flushed.Fail? {
        return Err(flushed.error);
      }
      if image.None? {
        return Err(NoImage);
      }
      format := fmt;
      var picture := Picture(image.value, drawn, fmt.value);
      if toFormat.Some? {
        r := Ok(Blob(picture));
      } else if path.None? {
        r := Err(MissingFileName);
      } else {
        r := Ok(Written(path.value, picture));
      }
    }
  }

  /** `fill = 'red'` between two dots: the dot queued before it is drawn in
      the default style, the one queued after it in red, each in its own
      batch of one primitive. */
  method FillChangeBetweenDots(name: string, info: Catalog.Info, columns: nat, rows: nat,
                               albers: Projection.AlbersFormula)
    returns (before: Batch, after: Batch)
    requires "map" in info && "projection" in info && Some(name) in info["map"]
    ensures before.pen == PenOf(DefaultStyle) && |before.shapes| == 1
    ensures after.pen == PenOf(DefaultStyle).(fill := "red") && |after.shapes| == 1
    ensures before.shapes == [DotShape(Dot(10.0, 10.0, 4.0), 1.0)]
    ensures after.shapes == [DotShape(Dot(20.0, 20.0, 9.0), 1.0)]
  {
    var m := new Map(name, info, columns, rows, albers);
    m.AddDot(10.0, 10.0, 4.0);
    var stored := m.Set(Fill("red"));
    m.AddDot(20.0, 20.0, 9.0);
    var flushed := m.Render();
    before, after := m.drawn[0], m.drawn[1];
    DrawnSingleDot(before.shapes, Dot(10.0, 10.0, 4.0), 1.0);
    DrawnSingleDot(after.shapes, Dot(20.0, 20.0, 9.0), 1.0);
  }
}
