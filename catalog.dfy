/** The map catalog (`maps/_info`), read by `Map.info_from_file`: each line is
    `TAG NAME FIELD...`; the fields go to `data[tag.downcase][name]`, a later
    line with the same tag and name replacing an earlier one. The lines
    arrive already split on whitespace; reading the file is not modelled. */
module Catalog {
  import opened Common
  import Text

  /** One tag's table: catalog name (nil for a line with a tag only) to fields. */
  type Table = map<Option<string>, seq<string>>

  /** Downcased tag to its table, as `info_from_file` returns it. */
  type Info = map<string, Table>

  function LineTag(tokens: seq<string>): string
    requires |tokens| > 0
  {
    Text.Downcase(tokens[0])
  }

  /** `name` in `tag, name, *vec = line.split`: nil when the line has one token. */
  function LineName(tokens: seq<string>): Option<string>
  {
    if |tokens| > 1 then Some(tokens[1]) else None
  }

  /** `vec` in `tag, name, *vec = line.split`. */
  function LineFields(tokens: seq<string>): seq<string>
  {
    if |tokens| > 2 then tokens[2..] else []
  }

  /** One turn of the loop: `data[tag] ||= {}; data[tag][name] = vec`. */
  function AddLine(data: Info, tokens: seq<string>): Info
    requires |tokens| > 0
  {
    var tag := LineTag(tokens);
    var table := if tag in data then data[tag] else map[];
    data[tag := table[LineName(tokens) := LineFields(tokens)]]
  }

  /** The catalog the lines describe, or the first line with no tokens. */
  function FoldInfo(lines: seq<seq<string>>): Result<Info>
    decreases |lines|
  {
    if lines == [] then Ok(map[])
    else
      match FoldInfo(lines[..|lines| - 1])
      case Err(e) => Err(e)
      case Ok(data) =>
        var last := lines[|lines| - 1];
        if last == [] then Err(BlankCatalogLine(|lines| - 1)) else Ok(AddLine(data, last))
  }

  predicate NoBlankLine(lines: seq<seq<string>>)
  {
    forall i :: 0 <= i < |lines| ==> lines[i] != []
  }

  /** `info_from_file`: the `while (line = f.gets)` loop over the split lines. */
  method InfoFromLines(lines: seq<seq<string>>) returns (r: Result<Info>)
    ensures r == FoldInfo(lines)
  {
    var data: Info := map[];
    var i := 0;
    while i < |lines|
      invariant 0 <= i <= |lines|
      invariant FoldInfo(lines[..i]) == Ok(data)
    {
      var tokens := lines[i];
      assert lines[..i + 1][..i] == lines[..i];
      if tokens == [] {
        FailurePersists(lines, i + 1);
        return Err(BlankCatalogLine(i));
      }
      var tag := Text.Downcase(tokens[0]);
      var table := if tag in data then data[tag] else map[];
      var name := if |tokens| > 1 then Some(tokens[1]) else None;
      var fields := if |tokens| > 2 then tokens[2..] else [];
      data := data[tag := table[name := fields]];
      i := i + 1;
    }
    assert lines[..i] == lines;
    return Ok(data);
  }

  /** Once a prefix of the lines fails, the whole catalog fails the same way. */
  lemma {:induction false} FailurePersists(lines: seq<seq<string>>, n: nat)
    requires n <= |lines|
    requires FoldInfo(lines[..n]).Err?
    ensures FoldInfo(lines) == FoldInfo(lines[..n])
    decreases |lines| - n
  {
    if n < |lines| {
      assert lines[..n + 1][..n] == lines[..n];
      FailurePersists(lines, n + 1);
    } else {
      assert lines[..n] == lines;
    }
  }

  /** The fold succeeds exactly when no line is blank. */
  lemma {:induction false} FoldInfoSucceeds(lines: seq<seq<string>>)
    ensures FoldInfo(lines).Ok? <==> NoBlankLine(lines)
    decreases |lines|
  {
    if lines != [] {
      var init := lines[..|lines| - 1];
      FoldInfoSucceeds(init);
      assert forall i :: 0 <= i < |init| ==> init[i] == lines[i];
    }
  }

  /** A blank line with no blank line before it is the one reported. */
  lemma {:induction false} FoldInfoReportsFirstBlank(lines: seq<seq<string>>, i: nat)
    requires i < |lines| && lines[i] == []
    requires NoBlankLine(lines[..i])
    ensures FoldInfo(lines) == Err(BlankCatalogLine(i))
  {
    FoldInfoSucceeds(lines[..i]);
    assert lines[..i + 1][..i] == lines[..i];
    FailurePersists(lines, i + 1);
  }

  /** A tag and name are in the catalog exactly when some line carries them. */
  lemma {:induction false} InfoKeys(lines: seq<seq<string>>, tag: string, name: Option<string>)
    requires NoBlankLine(lines)
    ensures FoldInfo(lines).Ok?
    ensures var data := FoldInfo(lines).value;
      tag in data && name in data[tag]
      <==> exists i :: 0 <= i < |lines| && LineTag(lines[i]) == tag && LineName(lines[i]) == name
    decreases |lines|
  {
    FoldInfoSucceeds(lines);
    if lines != [] {
      var init := lines[..|lines| - 1];
      assert NoBlankLine(init) by {
        assert forall i :: 0 <= i < |init| ==> init[i] == lines[i];
      }
      InfoKeys(init, tag, name);
      var last := |lines| - 1;
      if exists i :: 0 <= i < |init| && LineTag(init[i]) == tag && LineName(init[i]) == name {
        var i :| 0 <= i < |init| && LineTag(init[i]) == tag && LineName(init[i]) == name;
        assert lines[i] == init[i];
      }
      if exists i :: 0 <= i < |lines| && LineTag(lines[i]) == tag && LineName(lines[i]) == name {
        var i :| 0 <= i < |lines| && LineTag(lines[i]) == tag && LineName(lines[i]) == name;
        if i < last { assert init[i] == lines[i]; }
      }
    }
  }

  /** A tag has a table in the catalog exactly when some line carries it. */
  lemma {:induction false} InfoTags(lines: seq<seq<string>>, tag: string)
    requires NoBlankLine(lines)
    ensures FoldInfo(lines).Ok?
    ensures tag in FoldInfo(lines).value <==> exists i :: 0 <= i < |lines| && LineTag(lines[i]) == tag
    decreases |lines|
  {
    FoldInfoSucceeds(lines);
    if lines != [] {
      var init := lines[..|lines| - 1];
      assert NoBlankLine(init) by {
        assert forall i :: 0 <= i < |init| ==> init[i] == lines[i];
      }
      InfoTags(init, tag);
      var last := |lines| - 1;
      if exists i :: 0 <= i < |init| && LineTag(init[i]) == tag {
        var i :| 0 <= i < |init| && LineTag(init[i]) == tag;
        assert lines[i] == init[i];
      }
      if exists i :: 0 <= i < |lines| && LineTag(lines[i]) == tag {
        var i :| 0 <= i < |lines| && LineTag(lines[i]) == tag;
        if i < last { assert init[i] == lines[i]; }
      }
    }
  }

  /** The fields stored under a tag and name are those of the last line that
      carries them: later duplicates win. */
  lemma {:induction false} InfoLastLineWins(lines: seq<seq<string>>, i: nat)
    requires NoBlankLine(lines)
    requires i < |lines|
    requires forall j :: i < j < |lines| ==>
      LineTag(lines[j]) != LineTag(lines[i]) || LineName(lines[j]) != LineName(lines[i])
    ensures FoldInfo(lines).Ok?
    ensures var data := FoldInfo(lines).value;
      LineTag(lines[i]) in data && LineName(lines[i]) in data[LineTag(lines[i])]
      && data[LineTag(lines[i])][LineName(lines[i])] == LineFields(lines[i])
    decreases |lines|
  {
    FoldInfoSucceeds(lines);
    var last := |lines| - 1;
    var init := lines[..last];
    assert NoBlankLine(init) by {
      assert forall k :: 0 <= k < |init| ==> init[k] == lines[k];
    }
    FoldInfoSucceeds(init);
    if i < last {
      assert init[i] == lines[i];
      assert forall j :: i < j < |init| ==> init[j] == lines[j];
      InfoLastLineWins(init, i);
    }
  }

  /** `Pippa.map_names`: the names of the `MAP` table, or None where
      `Map.info[:map]` is nil and `.keys` raises. The Ruby array's
      insertion order is not kept. */
  function MapNames(info: Info): Option<set<Option<string>>>
  {
    if "map" in info then Some(info["map"].Keys) else None
  }

  /** The map names are exactly the names on the catalog's `map` lines
      (any case of the tag). */
  lemma MapNamesOfCatalog(lines: seq<seq<string>>, name: Option<string>)
    requires NoBlankLine(lines)
    ensures FoldInfo(lines).Ok?
    ensures var names := MapNames(FoldInfo(lines).value);
      names.Some? && name in names.value
      <==> exists i :: 0 <= i < |lines| && LineTag(lines[i]) == "map" && LineName(lines[i]) == name
  {
    InfoKeys(lines, "map", name);
  }

  /** `map_names` raises (None) exactly when no line's tag lower-cases to
      `map`. */
  lemma MapNamesAbsent(lines: seq<seq<string>>)
    requires NoBlankLine(lines)
    ensures FoldInfo(lines).Ok?
    ensures MapNames(FoldInfo(lines).value).None? <==> forall i :: 0 <= i < |lines| ==> LineTag(lines[i]) != "map"
  {
    InfoTags(lines, "map");
  }

  /** The two sample lines of the catalog format: a `MAP` line and a
      `PROJECTION` line each file their fields under the lower-cased tag and
      the map's name. */
  lemma CatalogExample()
    ensures var lines := [["MAP", "World", "World100.png", "90", "-170", "-90", "190"],
                          ["PROJECTION", "USA50", "ALBER", "704.0", "30.8", "45.5", "21.86", "-99.9", "232", "388"]];
      && FoldInfo(lines).Ok?
      && var data := FoldInfo(lines).value;
      && data.Keys == {"map", "projection"}
      && data["map"] == map[Some("World") := ["World100.png", "90", "-170", "-90", "190"]]
      && data["projection"] == map[Some("USA50") := ["ALBER", "704.0", "30.8", "45.5", "21.86", "-99.9", "232", "388"]]
  {
    var l0 := ["MAP", "World", "World100.png", "90", "-170", "-90", "190"];
    var l1 := ["PROJECTION", "USA50", "ALBER", "704.0", "30.8", "45.5", "21.86", "-99.9", "232", "388"];
    var lines := [l0, l1];
    var d0 := Text.Downcase("MAP");
    assert d0[0] == 'm' && d0[1] == 'a' && d0[2] == 'p';
    assert d0 == "map";
    var d1 := Text.Downcase("PROJECTION");
    assert d1 == "projection";
    assert lines[..1] == [l0];
    var none: seq<seq<string>> := [];
    assert [l0][..0] == none;
    var data0 := AddLine(map[], l0);
    assert LineTag(l0) == "map" && LineName(l0) == Some("World");
    assert data0 == map["map" := map[Some("World") := l0[2..]]];
    assert FoldInfo([l0]) == Ok(data0);
    assert LineTag(l1) == "projection" && LineName(l1) == Some("USA50");
    assert "projection" !in data0;
    var data1 := AddLine(data0, l1);
    assert data1 == data0["projection" := map[Some("USA50") := l1[2..]]];
    assert FoldInfo(lines) == Ok(data1);
    assert l0[2..] == ["World100.png", "90", "-170", "-90", "190"];
    assert l1[2..] == ["ALBER", "704.0", "30.8", "45.5", "21.86", "-99.9", "232", "388"];
  }
}
