/** The zip-code table of `Map.zips_from_file`: the CSV header names are
    normalised by the `:underscore_symbol` header converter, the `lat` and
    `long` fields are converted to floats where they parse, and only rows
    with both a latitude and a longitude enter the table, keyed by zip code
    (a later row replacing an earlier one). The records arrive already split
    into fields; reading the CSV file is not modelled. */
module Zipcodes {
  import opened Common
  import Text

  // ---------------------------------------------------------------------
  // CSV::HeaderConverters[:underscore_symbol]

  /** `s.gsub(/::/, '/')`: pairs of colons are replaced left to right. */
  function ReplaceColonPairs(s: string): string
    decreases |s|
  {
    if |s| >= 2 && s[0] == ':' && s[1] == ':' then "/" + ReplaceColonPairs(s[2..])
    else if s == [] then []
    else [s[0]] + ReplaceColonPairs(s[1..])
  }

  /** The two word-splitting substitutions of the converter. */
  datatype Split =
    | Acronym    // gsub!(/([A-Z]+)([A-Z][a-z])/, '\1_\2')
    | Hump       // gsub!(/([a-z\d])([A-Z])/, '\1_\2')

  /** Whether the substitution puts an underscore in front of `s[i]`.
      `Acronym` matches a run of capitals followed by a capital and a small
      letter, and so splits off the last capital of a run that a small letter
      follows; `Hump` splits a capital from a small letter or digit before
      it. Neither match can overlap the next, so each insertion depends only
      on the neighbours of `s[i]`. */
  predicate SplitsBefore(rule: Split, s: string, i: nat)
    requires i < |s|
  {
    match rule
    case Acronym => 1 <= i && i + 1 < |s| && Text.IsUpper(s[i - 1]) && Text.IsUpper(s[i]) && Text.IsLower(s[i + 1])
    case Hump => 1 <= i && (Text.IsLower(s[i - 1]) || Text.IsDigit(s[i - 1])) && Text.IsUpper(s[i])
  }

  /** `s[i..]` after the substitution. */
  function InsertSplits(rule: Split, s: string, i: nat): string
    requires i <= |s|
    decreases |s| - i
  {
    if i == |s| then []
    else (if SplitsBefore(rule, s, i) then "_" else "") + [s[i]] + InsertSplits(rule, s, i + 1)
  }

  function DashToUnderscore(c: char): char { if c == '-' then '_' else c }

  /** `t.tr!("-", "_")`. */
  function Dashes(s: string): string
  {
    seq(|s|, i requires 0 <= i < |s| => DashToUnderscore(s[i]))
  }

  /** The header converter, up to `to_sym`. */
  function UnderscoreHeader(h: string): string
  {
    var t := ReplaceColonPairs(h);
    var t1 := InsertSplits(Acronym, t, 0);
    var t2 := InsertSplits(Hump, t1, 0);
    Text.Downcase(Dashes(t2))
  }

  predicate NoUpper(s: string) { forall i :: 0 <= i < |s| ==> !Text.IsUpper(s[i]) }
  predicate NoDash(s: string) { forall i :: 0 <= i < |s| ==> s[i] != '-' }
  predicate NoColonPair(s: string) { forall i :: 0 <= i < |s| - 1 ==> !(s[i] == ':' && s[i + 1] == ':') }

  lemma ColonPairFreeConcat(a: string, b: string)
    requires NoColonPair(a) && NoColonPair(b)
    requires a != [] && b != [] ==> !(a[|a| - 1] == ':' && b[0] == ':')
    ensures NoColonPair(a + b)
  {
    var r := a + b;
    forall i | 0 <= i < |r| - 1 ensures !(r[i] == ':' && r[i + 1] == ':') {
      if i < |a| - 1 {
        assert r[i] == a[i] && r[i + 1] == a[i + 1];
      } else if i == |a| - 1 {
        assert r[i] == a[|a| - 1] && r[i + 1] == b[0];
      } else {
        assert r[i] == b[i - |a|] && r[i + 1] == b[i - |a| + 1];
      }
    }
  }

  lemma {:induction false} ReplaceColonPairsHead(s: string)
    requires s != []
    ensures ReplaceColonPairs(s) != []
    ensures ReplaceColonPairs(s)[0] == '/' || ReplaceColonPairs(s)[0] == s[0]
  {
  }

  /** No pair of colons survives the substitution. */
  lemma {:induction false} ReplaceColonPairsLeavesNone(s: string)
    ensures NoColonPair(ReplaceColonPairs(s))
    decreases |s|
  {
    if |s| >= 2 && s[0] == ':' && s[1] == ':' {
      ReplaceColonPairsLeavesNone(s[2..]);
      ColonPairFreeConcat("/", ReplaceColonPairs(s[2..]));
    } else if s != [] {
      ReplaceColonPairsLeavesNone(s[1..]);
      if s[1..] != [] {
        ReplaceColonPairsHead(s[1..]);
      }
      ColonPairFreeConcat([s[0]], ReplaceColonPairs(s[1..]));
    }
  }

  lemma {:induction false} ReplaceColonPairsKeeps(s: string)
    requires NoColonPair(s)
    ensures ReplaceColonPairs(s) == s
    decreases |s|
  {
    if s != [] {
      assert NoColonPair(s[1..]);
      ReplaceColonPairsKeeps(s[1..]);
      assert [s[0]] + s[1..] == s;
    }
  }

  /** The first pair of colons becomes a slash: when `a` holds no pair of
      colons and does not end in one, `a + "::" + b` is rewritten to `a`,
      a slash, and the rewriting of `b`. */
  lemma {:induction false} ReplaceColonPairsAtFirstPair(a: string, b: string)
    requires NoColonPair(a) && (a == [] || a[|a| - 1] != ':')
    ensures ReplaceColonPairs(a + "::" + b) == a + "/" + ReplaceColonPairs(b)
    decreases |a|
  {
    var s := a + "::" + b;
    if a == [] {
      assert s == "::" + b && s[2..] == b;
    } else {
      assert s[0] == a[0] && s[1..] == a[1..] + "::" + b;
      if |a| >= 2 {
        assert s[1] == a[1];
      }
      assert NoColonPair(a[1..]) by {
        forall i | 0 <= i < |a[1..]| - 1 ensures !(a[1..][i] == ':' && a[1..][i + 1] == ':') {
          assert a[1..][i] == a[i + 1] && a[1..][i + 1] == a[i + 2];
        }
      }
      assert a[1..] == [] || a[1..][|a[1..]| - 1] == a[|a| - 1];
      ReplaceColonPairsAtFirstPair(a[1..], b);
      assert [a[0]] + a[1..] == a;
    }
  }

  lemma {:induction false} InsertSplitsHead(rule: Split, s: string, i: nat)
    requires i < |s|
    ensures InsertSplits(rule, s, i) != []
    ensures InsertSplits(rule, s, i)[0] == '_' || InsertSplits(rule, s, i)[0] == s[i]
  {
  }

  /** Inserting underscores never joins two colons. */
  lemma {:induction false} InsertSplitsKeepsColonsApart(rule: Split, s: string, i: nat)
    requires i <= |s| && NoColonPair(s)
    ensures NoColonPair(InsertSplits(rule, s, i))
    decreases |s| - i
  {
    if i < |s| {
      var piece := (if SplitsBefore(rule, s, i) then "_" else "") + [s[i]];
      var rest := InsertSplits(rule, s, i + 1);
      InsertSplitsKeepsColonsApart(rule, s, i + 1);
      assert piece[|piece| - 1] == s[i];
      if i + 1 < |s| {
        InsertSplitsHead(rule, s, i + 1);
      }
      ColonPairFreeConcat(piece, rest);
    }
  }

  /** Without capitals neither substitution changes anything. */
  lemma {:induction false} InsertSplitsKeeps(rule: Split, s: string, i: nat)
    requires i <= |s| && NoUpper(s)
    ensures InsertSplits(rule, s, i) == s[i..]
    decreases |s| - i
  {
    if i < |s| {
      InsertSplitsKeeps(rule, s, i + 1);
      assert [s[i]] + s[i + 1..] == s[i..];
    }
  }

  /** A normalised header has no capitals, no dashes and no pair of colons. */
  lemma NormalisedShape(h: string)
    ensures var u := UnderscoreHeader(h); NoUpper(u) && NoDash(u) && NoColonPair(u)
  {
    var t := ReplaceColonPairs(h);
    ReplaceColonPairsLeavesNone(h);
    var t1 := InsertSplits(Acronym, t, 0);
    InsertSplitsKeepsColonsApart(Acronym, t, 0);
    var t2 := InsertSplits(Hump, t1, 0);
    InsertSplitsKeepsColonsApart(Hump, t1, 0);
    var u := UnderscoreHeader(h);
    assert u == Text.Downcase(Dashes(t2));
    forall i | 0 <= i < |u| - 1 ensures !(u[i] == ':' && u[i + 1] == ':') {
      assert u[i] == ':' ==> t2[i] == ':';
      assert u[i + 1] == ':' ==> t2[i + 1] == ':';
    }
  }

  /** Normalising a normalised header changes nothing. */
  lemma UnderscoreHeaderIdempotent(h: string)
    ensures UnderscoreHeader(UnderscoreHeader(h)) == UnderscoreHeader(h)
  {
    var u := UnderscoreHeader(h);
    NormalisedShape(h);
    ReplaceColonPairsKeeps(u);
    InsertSplitsKeeps(Acronym, u, 0);
    InsertSplitsKeeps(Hump, u, 0);
    assert Dashes(u) == u;
    assert Text.Downcase(u) == u;
  }

  /** Where neither substitution applies, `s[i..j]` is copied unchanged. */
  lemma {:induction false} InsertSplitsPlain(rule: Split, s: string, i: nat, j: nat)
    requires i <= j <= |s|
    requires forall k :: i <= k < j ==> !SplitsBefore(rule, s, k)
    ensures InsertSplits(rule, s, i) == s[i..j] + InsertSplits(rule, s, j)
    decreases j - i
  {
    if i < j {
      InsertSplitsPlain(rule, s, i + 1, j);
      assert !SplitsBefore(rule, s, i);
      assert InsertSplits(rule, s, i) == "" + [s[i]] + InsertSplits(rule, s, i + 1);
      assert "" + [s[i]] == [s[i]];
      assert s[i..j] == [s[i]] + s[i + 1..j];
      assert [s[i]] + (s[i + 1..j] + InsertSplits(rule, s, j)) == ([s[i]] + s[i + 1..j]) + InsertSplits(rule, s, j);
    }
  }

  /** The positions from `i` on where the substitution puts an underscore. */
  function SplitPoints(rule: Split, s: string, i: nat): set<nat>
    requires i <= |s|
  {
    set k: nat | i <= k < |s| && SplitsBefore(rule, s, k)
  }

  lemma SplitPointsStep(rule: Split, s: string, i: nat)
    requires i < |s|
    ensures |SplitPoints(rule, s, i)| == |SplitPoints(rule, s, i + 1)| + (if SplitsBefore(rule, s, i) then 1 else 0)
  {
    SplitPointsFirst(rule, s, i);
  }

  lemma SplitPointsFirst(rule: Split, s: string, i: nat)
    requires i < |s|
    ensures i !in SplitPoints(rule, s, i + 1)
    ensures SplitPoints(rule, s, i) == (if SplitsBefore(rule, s, i) then {i} else {}) + SplitPoints(rule, s, i + 1)
  {
  }

  /** The substitution adds exactly one character per split point. */
  lemma {:induction false} InsertSplitsLength(rule: Split, s: string, i: nat)
    requires i <= |s|
    ensures |InsertSplits(rule, s, i)| == |s| - i + |SplitPoints(rule, s, i)|
    decreases |s| - i
  {
    if i == |s| {
      assert SplitPoints(rule, s, i) == {};
    } else {
      InsertSplitsLength(rule, s, i + 1);
      SplitPointsStep(rule, s, i);
    }
  }

  /** The substitution's output from `i` ends with its output from `k`. */
  lemma {:induction false} InsertSplitsSuffix(rule: Split, s: string, i: nat, k: nat)
    requires i <= k <= |s|
    ensures var out, tail := InsertSplits(rule, s, i), InsertSplits(rule, s, k);
      |tail| <= |out| && out[|out| - |tail|..] == tail
    decreases k - i
  {
    if i < k {
      InsertSplitsSuffix(rule, s, i + 1, k);
      var piece := (if SplitsBefore(rule, s, i) then "_" else "") + [s[i]];
      var rest, tail := InsertSplits(rule, s, i + 1), InsertSplits(rule, s, k);
      assert InsertSplits(rule, s, i) == piece + rest;
      SuffixOfConcat(piece, rest, |tail|);
    }
  }

  lemma SuffixOfConcat(a: string, b: string, n: nat)
    requires n <= |b|
    ensures (a + b)[|a + b| - n..] == b[|b| - n..]
  {
    var l, r := (a + b)[|a + b| - n..], b[|b| - n..];
    assert |l| == |r|;
    forall j | 0 <= j < n ensures l[j] == r[j] {
      assert l[j] == (a + b)[|a| + |b| - n + j];
    }
  }

  /** At every split point `k` an underscore goes in directly in front of
      `s[k]`, at the position `s[k]` would have plus the underscores already
      inserted before it. */
  lemma InsertSplitsAtSplitPoint(rule: Split, s: string, i: nat, k: nat)
    requires i <= k < |s| && SplitsBefore(rule, s, k)
    ensures var out := InsertSplits(rule, s, i);
      var p := k - i + |SplitPoints(rule, s, i)| - |SplitPoints(rule, s, k)|;
      0 <= p && p + 1 < |out| && out[p] == '_' && out[p + 1] == s[k]
  {
    var out, tail := InsertSplits(rule, s, i), InsertSplits(rule, s, k);
    InsertSplitsSuffix(rule, s, i, k);
    InsertSplitsLength(rule, s, i);
    InsertSplitsLength(rule, s, k);
    var p := |out| - |tail|;
    assert p == k - i + |SplitPoints(rule, s, i)| - |SplitPoints(rule, s, k)|;
    assert tail[0] == '_' && tail[1] == s[k];
    assert out[p..][0] == out[p] && out[p..][1] == out[p + 1];
  }

  /** A capitalised word such as `Lat` is only downcased. */
  lemma CapitalisedWord(h: string)
    requires h != [] && Text.IsUpper(h[0])
    requires forall k :: 1 <= k < |h| ==> Text.IsLower(h[k])
    ensures UnderscoreHeader(h) == Text.Downcase(h)
  {
    assert NoColonPair(h);
    ReplaceColonPairsKeeps(h);
    assert h[0..|h|] == h && h + [] == h;
    InsertSplitsPlain(Acronym, h, 0, |h|);
    assert InsertSplits(Acronym, h, 0) == h;
    InsertSplitsPlain(Hump, h, 0, |h|);
    assert InsertSplits(Hump, h, 0) == h;
    assert Dashes(h) == h;
  }

  /** The three columns the map library reads are `Zipcode`, `Lat` and
      `Long` in the data file, read as `:zipcode`, `:lat` and `:long`. */
  lemma ZipcodeHeader()
    ensures UnderscoreHeader("Zipcode") == "zipcode"
  {
    CapitalisedWord("Zipcode");
    var d := Text.Downcase("Zipcode");
    assert d[0] == 'z';
    assert d == "zipcode";
  }

  lemma LatHeader()
    ensures UnderscoreHeader("Lat") == "lat"
  {
    CapitalisedWord("Lat");
    var d := Text.Downcase("Lat");
    assert d[0] == 'l';
    assert d == "lat";
  }

  lemma LongHeader()
    ensures UnderscoreHeader("Long") == "long"
  {
    CapitalisedWord("Long");
    var d := Text.Downcase("Long");
    assert d[0] == 'l';
    assert d == "long";
  }

  /** Each lower-to-upper step starts a new word: `ZipCodeType` is read as
      `:zip_code_type`. */
  lemma ZipCodeTypeHeader()
    ensures UnderscoreHeader("ZipCodeType") == "zip_code_type"
  {
    var s := "ZipCodeType";
    ZipCodeTypeHasNoColonPair();
    ZipCodeTypeHasNoAcronym();
    ZipCodeTypeHumps();
    ZipCodeTypeDowncase();
    UnderscoreHeaderSteps(s, s, s, "Zip_Code_Type");
  }

  /** The converter as its three substitutions, each given by its result. */
  lemma UnderscoreHeaderSteps(h: string, t: string, t1: string, t2: string)
    requires ReplaceColonPairs(h) == t
    requires InsertSplits(Acronym, t, 0) == t1
    requires InsertSplits(Hump, t1, 0) == t2
    ensures UnderscoreHeader(h) == Text.Downcase(Dashes(t2))
  {
  }

  lemma ZipCodeTypeHasNoColonPair()
    ensures ReplaceColonPairs("ZipCodeType") == "ZipCodeType"
  {
    var s := "ZipCodeType";
    assert NoColonPair(s) by {
      forall i | 0 <= i < |s| - 1 ensures s[i] != ':' {
      }
    }
    ReplaceColonPairsKeeps(s);
  }

  lemma ZipCodeTypeDowncase()
    ensures Text.Downcase(Dashes("Zip_Code_Type")) == "zip_code_type"
  {
    var t := "Zip_Code_Type";
    assert Dashes(t) == t;
    var d := Text.Downcase(t);
    assert d == "zip_code_type";
  }

  lemma ZipCodeTypeHasNoAcronym()
    ensures InsertSplits(Acronym, "ZipCodeType", 0) == "ZipCodeType"
  {
    var s := "ZipCodeType";
    NoCapitalPairNoAcronym(s);
  }

  /** Without two capitals in a row the `Acronym` rule never applies. */
  lemma NoCapitalPairNoAcronym(s: string)
    requires forall k :: 1 <= k < |s| ==> !(Text.IsUpper(s[k - 1]) && Text.IsUpper(s[k]))
    ensures InsertSplits(Acronym, s, 0) == s
  {
    InsertSplitsPlain(Acronym, s, 0, |s|);
    assert s[0..|s|] == s && s + [] == s;
  }

  lemma ZipCodeTypeHumps()
    ensures InsertSplits(Hump, "ZipCodeType", 0) == "Zip_Code_Type"
  {
    ZipCodeTypeHumpsFromCode();
    ZipHasNoHump();
    InsertSplitsPlainPrefix(Hump, "ZipCodeType", 3, "_Code_Type");
    assert "ZipCodeType"[..3] == "Zip";
  }

  lemma ZipHasNoHump()
    ensures forall k :: 0 <= k < 3 ==> !SplitsBefore(Hump, "ZipCodeType", k)
  {
    var s := "ZipCodeType";
    forall k | 0 <= k < 3 ensures !SplitsBefore(Hump, s, k) {
    }
  }

  lemma InsertSplitsPlainPrefix(rule: Split, s: string, j: nat, tail: string)
    requires j <= |s|
    requires forall k :: 0 <= k < j ==> !SplitsBefore(rule, s, k)
    requires InsertSplits(rule, s, j) == tail
    ensures InsertSplits(rule, s, 0) == s[..j] + tail
  {
    InsertSplitsPlain(rule, s, 0, j);
    assert s[0..j] == s[..j];
  }

  lemma ZipCodeTypeHumpsFromCode()
    ensures InsertSplits(Hump, "ZipCodeType", 3) == "_Code_Type"
  {
    var s := "ZipCodeType";
    ZipCodeTypeHumpsFromType();
    InsertSplitsPlain(Hump, s, 4, 7);
    assert s[4..7] == "ode";
    assert SplitsBefore(Hump, s, 3);
    assert InsertSplits(Hump, s, 3) == "_" + "C" + ("ode" + "_Type");
    assert "_" + "C" + ("ode" + "_Type") == "_Code_Type";
  }

  lemma ZipCodeTypeHumpsFromType()
    ensures InsertSplits(Hump, "ZipCodeType", 7) == "_Type"
  {
    var s := "ZipCodeType";
    InsertSplitsPlain(Hump, s, 8, 11);
    assert s[8..11] == "ype";
    assert SplitsBefore(Hump, s, 7);
    assert InsertSplits(Hump, s, 7) == "_" + "T" + ("ype" + []);
    assert "_" + "T" + ("ype" + []) == "_Type";
  }

  /** The `Acronym` rule splits off the last capital of a run that a small
      letter follows: `ZIPCode` becomes `ZIP_Code`. */
  lemma AcronymSplit()
    ensures InsertSplits(Acronym, "ZIPCode", 0) == "ZIP_Code"
  {
    var s := "ZIPCode";
    InsertSplitsPlain(Acronym, s, 4, 7);
    assert s[4..7] == "ode";
    var a := InsertSplits(Acronym, s, 4);
    assert a == "ode";
    assert SplitsBefore(Acronym, s, 3);
    var b := InsertSplits(Acronym, s, 3);
    assert b == "_" + "C" + a;
    forall k | 0 <= k < 3 ensures !SplitsBefore(Acronym, s, k) {
    }
    InsertSplitsPlain(Acronym, s, 0, 3);
    assert s[0..3] == "ZIP";
    assert InsertSplits(Acronym, s, 0) == "ZIP" + b;
    assert "ZIP" + ("_" + "C" + "ode") == "ZIP_Code";
  }

  // ---------------------------------------------------------------------
  // Rows

  /** A converted field: nil, a Float, or the original string. */
  datatype Cell = Blank | Number(value: real) | Str(text: string)

  /** The fields of a CSV row that the map library reads. */
  datatype ZipRow = ZipRow(zipcode: Option<string>, lat: Cell, long: Cell)

  /** `CSV::Converters[:custom]`: `Float(s)` for the `lat` and `long`
      columns, falling back to the string where `Float` raises; CSV leaves
      empty (nil) fields alone. */
  function ConvertField(header: string, raw: Option<string>): (c: Cell)
    ensures raw.None? <==> c.Blank?
    ensures c.Number? ==> header == "lat" || header == "long"
    ensures c.Number? ==> raw.Some? && Text.ParseFloat(raw.value) == Some(c.value)
    ensures c.Str? ==> raw == Some(c.text)
    ensures raw.Some? && (header == "lat" || header == "long") && Text.ParseFloat(raw.value).Some? ==> c.Number?
  {
    match raw
    case None => Blank
    case Some(s) =>
      if header == "lat" || header == "long" then
        match Text.ParseFloat(s)
        case Some(v) => Number(v)
        case None => Str(s)
      else Str(s)
  }

  /** `row[key]`: the field under the first header equal to `key`, nil when
      there is none or the record is too short. */
  function FieldOf(headers: seq<string>, fields: seq<Option<string>>, key: string): Option<string>
    decreases |headers|
  {
    if headers == [] then None
    else if headers[0] == key then (if fields != [] then fields[0] else None)
    else FieldOf(headers[1..], if fields != [] then fields[1..] else [], key)
  }

  /** `row[key]` finds the first header equal to the key and returns the
      field in that column, or nil when the record is shorter. */
  lemma {:induction false} FieldOfFirstMatch(headers: seq<string>, fields: seq<Option<string>>, key: string, i: nat)
    requires i < |headers| && headers[i] == key && key !in headers[..i]
    ensures FieldOf(headers, fields, key) == (if i < |fields| then fields[i] else None)
    decreases i
  {
    if i > 0 {
      assert headers[0] in headers[..i];
      assert headers[1..][..i - 1] == headers[..i][1..];
      var rest := if fields != [] then fields[1..] else [];
      FieldOfFirstMatch(headers[1..], rest, key, i - 1);
    }
  }

  /** A key under no header gives nil. */
  lemma {:induction false} FieldOfMissing(headers: seq<string>, fields: seq<Option<string>>, key: string)
    requires key !in headers
    ensures FieldOf(headers, fields, key) == None
    decreases |headers|
  {
    if headers != [] {
      assert headers[0] in headers;
      assert key !in headers[1..];
      FieldOfMissing(headers[1..], if fields != [] then fields[1..] else [], key);
    }
  }

  function RowOf(headers: seq<string>, fields: seq<Option<string>>): ZipRow
  {
    ZipRow(FieldOf(headers, fields, "zipcode"),
           ConvertField("lat", FieldOf(headers, fields, "lat")),
           ConvertField("long", FieldOf(headers, fields, "long")))
  }

  function NormalisedHeaders(header: seq<string>): seq<string>
  {
    seq(|header|, i requires 0 <= i < |header| => UnderscoreHeader(header[i]))
  }

  function RowsOf(headers: seq<string>, records: seq<seq<Option<string>>>): seq<ZipRow>
  {
    seq(|records|, i requires 0 <= i < |records| => RowOf(headers, records[i]))
  }

  /** The guard `if row[:lat] && row[:long]`: nil is the only false value a
      field can hold. */
  predicate Located(row: ZipRow)
  {
    !row.lat.Blank? && !row.long.Blank?
  }

  type ZipTable = map<Option<string>, ZipRow>

  /** `zips[row[:zipcode]] = row if row[:lat] && row[:long]`, row by row. */
  function ZipTableOf(rows: seq<ZipRow>): ZipTable
    decreases |rows|
  {
    if rows == [] then map[]
    else
      var table := ZipTableOf(rows[..|rows| - 1]);
      var row := rows[|rows| - 1];
      if Located(row) then table[row.zipcode := row] else table
  }

  /** `zips_from_file`: the `CSV.foreach` loop over the records that follow
      the header row. */
  method ZipsFromCsv(header: seq<string>, records: seq<seq<Option<string>>>) returns (zips: ZipTable)
    ensures zips == ZipTableOf(RowsOf(NormalisedHeaders(header), records))
  {
    var headers := NormalisedHeaders(header);
    ghost var rows := RowsOf(headers, records);
    zips := map[];
    var i := 0;
    while i < |records|
      invariant 0 <= i <= |records|
      invariant zips == ZipTableOf(rows[..i])
    {
      var row := RowOf(headers, records[i]);
      assert rows[..i + 1][..i] == rows[..i];
      if !row.lat.Blank? && !row.long.Blank? {
        zips := zips[row.zipcode := row];
      }
      i := i + 1;
    }
    assert rows[..i] == rows;
  }

  /** A zip code is in the table exactly when some row with that code has
      both a latitude and a longitude. */
  lemma {:induction false} ZipTableKeys(rows: seq<ZipRow>, zip: Option<string>)
    ensures zip in ZipTableOf(rows)
      <==> exists i :: 0 <= i < |rows| && rows[i].zipcode == zip && Located(rows[i])
    decreases |rows|
  {
    if rows != [] {
      var init := rows[..|rows| - 1];
      ZipTableKeys(init, zip);
      if exists i :: 0 <= i < |init| && init[i].zipcode == zip && Located(init[i]) {
        var i :| 0 <= i < |init| && init[i].zipcode == zip && Located(init[i]);
        assert rows[i] == init[i];
      }
      if exists i :: 0 <= i < |rows| && rows[i].zipcode == zip && Located(rows[i]) {
        var i :| 0 <= i < |rows| && rows[i].zipcode == zip && Located(rows[i]);
        if i < |init| { assert init[i] == rows[i]; }
      }
    }
  }

  /** Every entry is a located row filed under its own zip code. */
  lemma {:induction false} ZipTableEntries(rows: seq<ZipRow>, zip: Option<string>)
    requires zip in ZipTableOf(rows)
    ensures ZipTableOf(rows)[zip].zipcode == zip && Located(ZipTableOf(rows)[zip])
    ensures ZipTableOf(rows)[zip] in rows
    decreases |rows|
  {
    var init := rows[..|rows| - 1];
    var row := rows[|rows| - 1];
    if !(Located(row) && row.zipcode == zip) {
      ZipTableEntries(init, zip);
      assert ZipTableOf(init)[zip] in init;
    }
  }

  /** A located row that no later located row with the same zip code
      follows is the one the table keeps. */
  lemma {:induction false} ZipTableLastRowWins(rows: seq<ZipRow>, i: nat)
    requires i < |rows| && Located(rows[i])
    requires forall j :: i < j < |rows| && Located(rows[j]) ==> rows[j].zipcode != rows[i].zipcode
    ensures rows[i].zipcode in ZipTableOf(rows) && ZipTableOf(rows)[rows[i].zipcode] == rows[i]
    decreases |rows|
  {
    var last := |rows| - 1;
    var init := rows[..last];
    if i < last {
      assert init[i] == rows[i];
      assert forall j :: i < j < |init| ==> init[j] == rows[j];
      ZipTableLastRowWins(init, i);
    }
  }

  /** Two records under the normalised headers: the West Point row, whose
      coordinates convert to floats, enters the table; a row with an empty
      latitude is skipped. */
  lemma WestPointTable()
    ensures var rows := RowsOf(["zipcode", "lat", "long"],
                               [[Some("10996"), Some("41"), Some("-74")], [Some("00000"), None, Some("-74")]]);
      ZipTableOf(rows) == map[Some("10996") := ZipRow(Some("10996"), Number(41.0), Number(-74.0))]
  {
    var headers := ["zipcode", "lat", "long"];
    var r0 := [Some("10996"), Some("41"), Some("-74")];
    var r1: seq<Option<string>> := [Some("00000"), None, Some("-74")];
    WestPointRow();
    BlankLatitudeRow();
    var row0 := RowOf(headers, r0);
    var rows := RowsOf(headers, [r0, r1]);
    assert rows[0] == row0;
    assert !Located(rows[1]);
    assert rows[..1] == [row0];
    assert [row0][..0] == [];
  }

  lemma WestPointRow()
    ensures RowOf(["zipcode", "lat", "long"], [Some("10996"), Some("41"), Some("-74")])
      == ZipRow(Some("10996"), Number(41.0), Number(-74.0))
  {
    var headers := ["zipcode", "lat", "long"];
    var r0 := [Some("10996"), Some("41"), Some("-74")];
    WestPointCoordinatesParse();
    assert FieldOf(headers, r0, "zipcode") == Some("10996");
    assert headers[1..] == ["lat", "long"] && r0[1..] == [Some("41"), Some("-74")];
    assert FieldOf(headers, r0, "lat") == Some("41");
    assert headers[1..][1..] == ["long"] && r0[1..][1..] == [Some("-74")];
    assert FieldOf(headers, r0, "long") == Some("-74");
  }

  lemma BlankLatitudeRow()
    ensures !Located(RowOf(["zipcode", "lat", "long"], [Some("00000"), None, Some("-74")]))
  {
    var headers := ["zipcode", "lat", "long"];
    var r1: seq<Option<string>> := [Some("00000"), None, Some("-74")];
    assert headers[1..] == ["lat", "long"] && r1[1..] == [None, Some("-74")];
    assert FieldOf(headers, r1, "lat") == None;
  }

  lemma WestPointCoordinatesParse()
    ensures Text.ParseFloat("41") == Some(41.0) && Text.ParseFloat("-74") == Some(-74.0)
  {
    assert Text.AllDigits("41") && Text.AllDigits("74");
    assert Text.DigitsValue("41") == 41 by {
      assert "41"[..1] == "4";
    }
    assert Text.DigitsValue("74") == 74 by {
      assert "74"[..1] == "7";
    }
    Text.IntegerLiteral("41");
    Text.IntegerLiteral("74");
    Text.NegatedLiteral("74");
    assert "-" + "74" == "-74";
  }
}
