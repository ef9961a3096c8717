/** `Map#set_projection`: the lat/lon-to-pixel function a map builds once,
    from its `PROJECTION` catalog fields when it has them (only `ALBER` is
    known) or otherwise from the bounding box on its `MAP` line. */
module Projection {
  import opened Common
  import Text

  /** The seven Albers parameters as the catalog gives them: radius, the two
      standard parallels, the origin latitude and longitude (all in degrees)
      and the false easting and northing. */
  datatype AlbersParams = AlbersParams(
    radius: real, phi1: real, phi2: real, phi0: real, lambda0: real,
    falseEasting: real, falseNorthing: real)

  /** The Albers conic formulas (sines, cosines, square roots). Dafny has no
      trigonometry, so the map receives them as a function value. */
  type AlbersFormula = (AlbersParams, real, real) -> (real, real)

  /** What `@lat_lon_to_xy` captures. `Box` keeps the top-left corner of the
      bounding box and the pixels per degree of latitude and longitude. */
  datatype Projection =
    | Albers(params: AlbersParams)
    | Box(topLat: real, topLon: real, latScale: real, lonScale: real)

  /** `@lat_lon_to_xy.call(lat, lon)`. */
  function Project(p: Projection, albers: AlbersFormula, lat: real, lon: real): (real, real)
  {
    match p
    case Albers(params) => albers(params, lat, lon)
    case Box(topLat, topLon, latScale, lonScale) => ((lon - topLon) * lonScale, (topLat - lat) * latScale)
  }

  /** `Float(fields[i])` for each index, in order; a missing field is `nil`,
      for which `Float` raises as it does on a malformed one. */
  function ParseFields(fields: seq<string>, indices: seq<nat>): (r: Option<seq<real>>)
    ensures r.Some? <==> forall j :: 0 <= j < |indices| ==>
      indices[j] < |fields| && Text.ParseFloat(fields[indices[j]]).Some?
    ensures r.Some? ==> |r.value| == |indices|
    ensures r.Some? ==> forall j :: 0 <= j < |indices| ==>
      indices[j] < |fields| && Text.ParseFloat(fields[indices[j]]) == Some(r.value[j])
  {
    if indices == [] then Some([])
    else if indices[0] >= |fields| then None
    else match Text.ParseFloat(fields[indices[0]])
      case None => None
      case Some(v) =>
        match ParseFields(fields, indices[1..])
        case None => None
        case Some(rest) => Some([v] + rest)
  }

  /** `set_projection` for a map with catalog entry `mapInfo` (None for an
      unknown map), projection entry `projectionInfo` and an image of
      `width` by `height` pixels. */
  function BuildProjection(mapInfo: Option<seq<string>>, projectionInfo: Option<seq<string>>,
                           width: nat, height: nat): (r: Result<Projection>)
    ensures projectionInfo.Some? && r.Ok? ==> r.value.Albers?
    ensures projectionInfo.None? && r.Ok? ==> r.value.Box?
    ensures projectionInfo.None? && mapInfo.None? ==> r == Err(NoMapInfo)
  {
    match projectionInfo
    case Some(p) =>
      if p != [] && p[0] == "ALBER" then
        match ParseFields(p, [1, 2, 3, 4, 5, 6, 7])
        case None => Err(BadNumber)
        case Some(v) => Ok(Albers(AlbersParams(v[0], v[1], v[2], v[3], v[4], v[5], v[6])))
      else Err(UnknownProjection(if p != [] then Some(p[0]) else None))
    case None =>
      match mapInfo
      case None => Err(NoMapInfo)
      case Some(m) =>
        match ParseFields(m, [1, 2, 3, 4])
        case None => Err(BadNumber)
        case Some(v) =>
          var (topLat, topLon, botLat, botLon) := (v[0], v[1], v[2], v[3]);
          if topLat == botLat || botLon == topLon then Err(DegenerateBox)
          else Ok(Box(topLat, topLon, height as real / (topLat - botLat), width as real / (botLon - topLon)))
  }

  /** A configured projection of any kind other than `ALBER` fails, and is
      never replaced by the bounding-box projection. */
  lemma UnknownKindFails(mapInfo: Option<seq<string>>, p: seq<string>, width: nat, height: nat)
    ensures BuildProjection(mapInfo, Some(p), width, height).Err? && BuildProjection(mapInfo, Some(p), width, height).error.UnknownProjection?
      <==> p == [] || p[0] != "ALBER"
  {
  }

  /** An `ALBER` entry whose seven numeric fields all parse gives the Albers
      projection, taking field 1 as the radius, fields 2 to 5 as the two
      standard parallels and the origin latitude and longitude, field 6 as
      the false easting and field 7 as the false northing. */
  lemma AlbersFromProjectionLine(mapInfo: Option<seq<string>>, p: seq<string>, width: nat, height: nat)
    requires |p| >= 8 && p[0] == "ALBER"
    requires forall i :: 1 <= i <= 7 ==> Text.ParseFloat(p[i]).Some?
    ensures BuildProjection(mapInfo, Some(p), width, height)
      == Ok(Albers(AlbersParams(
           Text.ParseFloat(p[1]).value, Text.ParseFloat(p[2]).value, Text.ParseFloat(p[3]).value,
           Text.ParseFloat(p[4]).value, Text.ParseFloat(p[5]).value,
           Text.ParseFloat(p[6]).value, Text.ParseFloat(p[7]).value)))
  {
    var indices: seq<nat> := [1, 2, 3, 4, 5, 6, 7];
    assert forall j :: 0 <= j < 7 ==> indices[j] == j + 1;
    var v := ParseFields(p, indices);
    assert v.Some?;
  }

  /** An `ALBER` entry fails with a bad number exactly when it has fewer than
      seven fields after the kind or one of them does not parse; it is never
      replaced by the bounding-box projection. */
  lemma AlbersBadNumber(mapInfo: Option<seq<string>>, p: seq<string>, width: nat, height: nat)
    requires p != [] && p[0] == "ALBER"
    ensures BuildProjection(mapInfo, Some(p), width, height).Ok?
      ==> BuildProjection(mapInfo, Some(p), width, height).value.Albers?
    ensures BuildProjection(mapInfo, Some(p), width, height) == Err(BadNumber)
      <==> |p| < 8 || exists i :: 1 <= i <= 7 && Text.ParseFloat(p[i]).None?
  {
    var indices: seq<nat> := [1, 2, 3, 4, 5, 6, 7];
    assert forall j :: 0 <= j < 7 ==> indices[j] == j + 1;
    if |p| < 8 {
      assert !(indices[6] < |p|);
    } else if i :| 1 <= i <= 7 && Text.ParseFloat(p[i]).None? {
      assert Text.ParseFloat(p[indices[i - 1]]).None?;
    }
  }

  /** With no projection entry, the map's `MAP` fields give the bounding-box
      projection: the top-left corner, then pixels per degree of latitude
      (`height / (top_lat - bot_lat)`) and of longitude
      (`width / (bot_lon - top_lon)`). */
  lemma BoxFromMapLine(m: seq<string>, width: nat, height: nat,
                       topLat: real, topLon: real, botLat: real, botLon: real)
    requires |m| >= 5
    requires Text.ParseFloat(m[1]) == Some(topLat) && Text.ParseFloat(m[2]) == Some(topLon)
    requires Text.ParseFloat(m[3]) == Some(botLat) && Text.ParseFloat(m[4]) == Some(botLon)
    requires topLat != botLat && topLon != botLon
    ensures BuildProjection(Some(m), None, width, height)
      == Ok(Box(topLat, topLon, height as real / (topLat - botLat), width as real / (botLon - topLon)))
  {
    BoxFields(m, topLat, topLon, botLat, botLon);
  }

  /** Without a projection entry the build fails with a bad number exactly
      when the `MAP` line has fewer than four fields after the image name or
      one of them does not parse. */
  lemma BoxBadNumber(m: seq<string>, width: nat, height: nat)
    ensures BuildProjection(Some(m), None, width, height) == Err(BadNumber)
      <==> |m| < 5 || exists i :: 1 <= i <= 4 && Text.ParseFloat(m[i]).None?
  {
    var indices: seq<nat> := [1, 2, 3, 4];
    assert forall j :: 0 <= j < 4 ==> indices[j] == j + 1;
    if |m| < 5 {
      assert !(indices[3] < |m|);
    } else if i :| 1 <= i <= 4 && Text.ParseFloat(m[i]).None? {
      assert Text.ParseFloat(m[indices[i - 1]]).None?;
    }
  }

  /** When the four `MAP` fields parse, the build fails as degenerate exactly
      when the box has no height or no width. */
  lemma BoxDegenerate(m: seq<string>, width: nat, height: nat)
    requires |m| >= 5 && forall i :: 1 <= i <= 4 ==> Text.ParseFloat(m[i]).Some?
    ensures BuildProjection(Some(m), None, width, height) == Err(DegenerateBox)
      <==> Text.ParseFloat(m[1]) == Text.ParseFloat(m[3]) || Text.ParseFloat(m[2]) == Text.ParseFloat(m[4])
  {
    var indices: seq<nat> := [1, 2, 3, 4];
    assert forall j :: 0 <= j < 4 ==> indices[j] == j + 1;
    var v := ParseFields(m, indices);
    assert v.Some?;
  }

  /** The bounding-box projection maps the box's top-left corner to pixel
      (0, 0) and its bottom-right corner to (width, height). */
  lemma BoxSpansImage(width: nat, height: nat, topLat: real, topLon: real, botLat: real, botLon: real,
                      albers: AlbersFormula)
    requires topLat != botLat && topLon != botLon
    ensures var p := Box(topLat, topLon, height as real / (topLat - botLat), width as real / (botLon - topLon));
      && Project(p, albers, topLat, topLon) == (0.0, 0.0)
      && Project(p, albers, botLat, botLon) == (width as real, height as real)
  {
    var lonScale := width as real / (botLon - topLon);
    var latScale := height as real / (topLat - botLat);
    var p := Box(topLat, topLon, latScale, lonScale);
    assert (botLon - topLon) * lonScale == width as real;
    assert (topLat - botLat) * latScale == height as real;
    assert Project(p, albers, topLat, topLon).0 == 0.0 && Project(p, albers, topLat, topLon).1 == 0.0;
    assert Project(p, albers, botLat, botLon).0 == width as real;
    assert Project(p, albers, botLat, botLon).1 == height as real;
  }

  lemma BoxFields(m: seq<string>, topLat: real, topLon: real, botLat: real, botLon: real)
    requires |m| >= 5
    requires Text.ParseFloat(m[1]) == Some(topLat) && Text.ParseFloat(m[2]) == Some(topLon)
    requires Text.ParseFloat(m[3]) == Some(botLat) && Text.ParseFloat(m[4]) == Some(botLon)
    ensures ParseFields(m, [1, 2, 3, 4]) == Some([topLat, topLon, botLat, botLon])
  {
    var indices: seq<nat> := [1, 2, 3, 4];
    assert forall j :: 0 <= j < 4 ==> indices[j] == j + 1;
    var v := ParseFields(m, indices);
    assert v.Some?;
    assert v.value == [topLat, topLon, botLat, botLon];
  }

  /** A whole-world map of 360 by 180 pixels puts latitude 0, longitude 0 at
      its centre (180, 90). */
  lemma WorldCentre(albers: AlbersFormula)
    ensures var p := BuildProjection(Some(["World.png", "90", "-180", "-90", "180"]), None, 360, 180);
      p.Ok? && Project(p.value, albers, 0.0, 0.0) == (180.0, 90.0)
  {
    NinetyParses();
    OneEightyParses();
    BoxFromMapLine(["World.png", "90", "-180", "-90", "180"], 360, 180, 90.0, -180.0, -90.0, 180.0);
  }

  lemma NinetyParses()
    ensures Text.ParseFloat("90") == Some(90.0) && Text.ParseFloat("-90") == Some(-90.0)
  {
    assert Text.AllDigits("90");
    assert Text.DigitsValue("90") == 90 by {
      assert "90"[..1] == "9";
    }
    Text.IntegerLiteral("90");
    Text.NegatedLiteral("90");
    assert "-" + "90" == "-90";
  }

  lemma OneEightyParses()
    ensures Text.ParseFloat("180") == Some(180.0) && Text.ParseFloat("-180") == Some(-180.0)
  {
    assert Text.AllDigits("180");
    assert Text.DigitsValue("180") == 180 by {
      assert "180"[..2] == "18";
      assert "18"[..1] == "1";
    }
    Text.IntegerLiteral("180");
    Text.NegatedLiteral("180");
    assert "-" + "180" == "-180";
  }
}
