/** `Map#conversion_to_format`: recognise `to_png`, `write_jpg` and the like
    and check the suffix against the image library's format table, which maps
    an upper-case format name to its capability flags (`*` marks a format
    with blob support). */
module Formats {
  import opened Common
  import Text

  /** Format name to capability flags, standing for `Magick.formats`. */
  type FormatTable = map<string, string>

  /** What `(.*)` captures in `/^prefix_(.*)$/`: the rest of the first line
      (in `Text.Lines` order) that begins with `lead`. `^` and `$` are line
      anchors in Ruby, so any line of the name may match. */
  function FirstLineSuffix(lines: seq<string>, lead: string): Option<string>
  {
    if lines == [] then None
    else if Text.StartsWith(lines[0], lead) then Some(lines[0][|lead|..])
    else FirstLineSuffix(lines[1..], lead)
  }

  /** `conversion_to_format(prefix, sym)`: the upper-cased suffix when the
      format table lists it with a `*` flag, else None (Ruby: nil or false). */
  function ConversionToFormat(prefix: string, name: string, formats: FormatTable): (r: Option<string>)
    ensures r.Some? ==> r.value in formats && '*' in formats[r.value]
  {
    match FirstLineSuffix(Text.Lines(name), prefix + "_")
    case None => None
    case Some(suffix) =>
      var formatName := Text.Upcase(suffix);
      if formatName in formats && '*' in formats[formatName] then Some(formatName) else None
  }

  /** Line `j` is the first line that begins with `lead`. */
  predicate FirstMatchAt(lines: seq<string>, lead: string, j: nat)
  {
    j < |lines| && Text.StartsWith(lines[j], lead) && forall k :: 0 <= k < j ==> !Text.StartsWith(lines[k], lead)
  }

  lemma FirstMatchUnique(lines: seq<string>, lead: string, i: nat, j: nat)
    requires FirstMatchAt(lines, lead, i) && FirstMatchAt(lines, lead, j)
    ensures i == j
  {
  }

  /** The leftmost match: the suffix comes from the first line that begins
      with `lead`, and there is none when no line does. */
  lemma {:induction false} FirstLineSuffixIsFirst(lines: seq<string>, lead: string, t: string)
    ensures FirstLineSuffix(lines, lead) == Some(t)
      <==> exists j: nat :: FirstMatchAt(lines, lead, j) && t == lines[j][|lead|..]
    ensures FirstLineSuffix(lines, lead).None? <==> forall k :: 0 <= k < |lines| ==> !Text.StartsWith(lines[k], lead)
    decreases |lines|
  {
    if lines != [] && !Text.StartsWith(lines[0], lead) {
      var rest := lines[1..];
      FirstLineSuffixIsFirst(rest, lead, t);
      assert forall k :: 0 <= k < |rest| ==> rest[k] == lines[k + 1];
      if exists j: nat :: FirstMatchAt(lines, lead, j) && t == lines[j][|lead|..] {
        var j: nat :| FirstMatchAt(lines, lead, j) && t == lines[j][|lead|..];
        assert j > 0;
        assert FirstMatchAt(rest, lead, j - 1);
      }
      if exists j: nat :: FirstMatchAt(rest, lead, j) && t == rest[j][|lead|..] {
        var j: nat :| FirstMatchAt(rest, lead, j) && t == rest[j][|lead|..];
        assert FirstMatchAt(lines, lead, j + 1) by {
          forall k | 0 <= k < j + 1 ensures !Text.StartsWith(lines[k], lead) {
            if k > 0 { assert lines[k] == rest[k - 1]; }
          }
        }
      }
    } else if lines != [] {
      assert FirstMatchAt(lines, lead, 0);
      forall j: nat | FirstMatchAt(lines, lead, j) ensures j == 0 {
        FirstMatchUnique(lines, lead, 0, j);
      }
    }
  }

  /** For any name: the conversion succeeds, with result `f`, exactly when
      some line of the name begins with `prefix_`, no earlier line does, `f`
      is the upper-cased rest of that line and the table gives `f` a `*`
      flag. */
  lemma ConversionOfName(prefix: string, name: string, formats: FormatTable, f: string)
    ensures var lines := Text.Lines(name);
      ConversionToFormat(prefix, name, formats) == Some(f)
      <==> exists j: nat :: FirstMatchAt(lines, prefix + "_", j)
                            && f == Text.Upcase(lines[j][|prefix| + 1..])
                            && f in formats && '*' in formats[f]
  {
    var lines, lead := Text.Lines(name), prefix + "_";
    var r := FirstLineSuffix(lines, lead);
    if r.Some? {
      FirstLineSuffixIsFirst(lines, lead, r.value);
      var j: nat :| FirstMatchAt(lines, lead, j) && r.value == lines[j][|lead|..];
      assert |lead| == |prefix| + 1;
      forall j': nat | FirstMatchAt(lines, lead, j') ensures j' == j {
        FirstMatchUnique(lines, lead, j, j');
      }
    } else {
      FirstLineSuffixIsFirst(lines, lead, []);
    }
  }

  /** For a name without newlines: the conversion succeeds, with result `f`,
      exactly when the name is `prefix_suffix`, `f` is the upper-cased
      suffix and the table gives `f` a `*` flag. */
  lemma ConversionOfPlainName(prefix: string, name: string, formats: FormatTable, f: string)
    requires '\n' !in name
    ensures ConversionToFormat(prefix, name, formats) == Some(f)
      <==> Text.StartsWith(name, prefix + "_")
           && f == Text.Upcase(name[|prefix| + 1..])
           && f in formats && '*' in formats[f]
  {
    var lead := prefix + "_";
    Text.LinesOfOneLine(name);
    assert [name][1..] == [];
    assert FirstLineSuffix([name], lead)
      == if Text.StartsWith(name, lead) then Some(name[|lead|..]) else None;
  }

  /** A name of the form `prefix_suffix` is rejected exactly when the table
      does not list the upper-cased suffix with a `*` flag. */
  lemma ConversionRejects(prefix: string, suffix: string, formats: FormatTable)
    requires '\n' !in prefix + "_" + suffix
    ensures var f := Text.Upcase(suffix);
      ConversionToFormat(prefix, prefix + "_" + suffix, formats).None?
      <==> f !in formats || '*' !in formats[f]
  {
    var name := prefix + "_" + suffix;
    assert name[..|prefix + "_"|] == prefix + "_";
    assert name[|prefix| + 1..] == suffix;
    ConversionOfPlainName(prefix, name, formats, Text.Upcase(suffix));
    var r := ConversionToFormat(prefix, name, formats);
    if r.Some? {
      ConversionOfPlainName(prefix, name, formats, r.value);
    }
  }

  /** Because the anchors are line anchors, a later line can supply the
      format: `"x\nto_png"` converts to PNG. */
  lemma LaterLineMatches(formats: FormatTable)
    requires "PNG" in formats && '*' in formats["PNG"]
    ensures ConversionToFormat("to", "x\nto_png", formats) == Some("PNG")
  {
    var lines := ["x", "to_png"];
    assert "to" + "_" == "to_";
    TwoLines();
    assert FirstLineSuffix(lines, "to_") == Some("png") by {
      assert !Text.StartsWith("x", "to_");
      assert lines[1..] == ["to_png"];
      assert "to_png"[..3] == "to_";
      assert "to_png"[3..] == "png";
    }
    UpcasePng();
  }

  lemma TwoLines()
    ensures Text.Lines("x\nto_png") == ["x", "to_png"]
  {
    var name := "x\nto_png";
    assert name[1..] == "\nto_png";
    NewlineThenPng();
    assert ['x'] + [] == "x";
  }

  lemma NewlineThenPng()
    ensures Text.Lines("\nto_png") == [[], "to_png"]
  {
    Text.LinesOfOneLine("to_png");
    assert "\nto_png"[1..] == "to_png";
  }

  lemma UpcasePng()
    ensures Text.Upcase("png") == "PNG"
  {
    var up := Text.Upcase("png");
    assert up[0] == 'P' && up[1] == 'N' && up[2] == 'G';
  }
}
