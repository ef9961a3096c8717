/** The string primitives the library leans on: ASCII case mapping
    (`String#downcase`, `String#upcase`), splitting a string into the lines
    that the regex anchors `^` and `$` see, and `Kernel#Float` on decimal
    literals. */
module Text {
  import opened Common

  predicate IsUpper(c: char) { 'A' <= c <= 'Z' }
  predicate IsLower(c: char) { 'a' <= c <= 'z' }
  predicate IsDigit(c: char) { '0' <= c <= '9' }

  function DowncaseChar(c: char): (d: char)
    ensures !IsUpper(d)
    ensures IsUpper(c) ==> IsLower(d) && d as int == c as int + 32
    ensures !IsUpper(c) ==> d == c
  {
    if IsUpper(c) then (c as int + 32) as char else c
  }

  function UpcaseChar(c: char): (u: char)
    ensures !IsLower(u)
    ensures IsLower(c) ==> IsUpper(u) && u as int == c as int - 32
    ensures !IsLower(c) ==> u == c
  {
    if IsLower(c) then (c as int - 32) as char else c
  }

  /** `s.downcase` on ASCII letters. */
  function Downcase(s: string): string
  {
    seq(|s|, i requires 0 <= i < |s| => DowncaseChar(s[i]))
  }

  /** `s.upcase` on ASCII letters. */
  function Upcase(s: string): string
  {
    seq(|s|, i requires 0 <= i < |s| => UpcaseChar(s[i]))
  }

  predicate StartsWith(s: string, prefix: string)
  {
    |prefix| <= |s| && s[..|prefix|] == prefix
  }

  /** The lines `ls` joined back together with newlines between them. */
  function JoinLines(ls: seq<string>): string
  {
    if ls == [] then []
    else if |ls| == 1 then ls[0]
    else ls[0] + "\n" + JoinLines(ls[1..])
  }

  /** The lines of `s`, split at every newline: at least one (possibly
      empty) line, none containing a newline, and joined with newlines they
      give back `s`. */
  function Lines(s: string): (ls: seq<string>)
    ensures |ls| >= 1
    ensures forall k :: 0 <= k < |ls| ==> '\n' !in ls[k]
    ensures JoinLines(ls) == s
    decreases |s|
  {
    if s == [] then [[]]
    else
      var rest := Lines(s[1..]);
      if s[0] == '\n' then
        assert ([[]] + rest)[1..] == rest;
        assert [] + "\n" + s[1..] == s;
        [[]] + rest
      else
        var ls := [[s[0]] + rest[0]] + rest[1..];
        assert |rest| >= 2 ==> ls[1..] == rest[1..];
        assert |rest| >= 2 ==> JoinLines(rest) == rest[0] + "\n" + JoinLines(rest[1..]);
        assert [s[0]] + s[1..] == s;
        ls
  }

  /** A string without newlines is a single line. */
  lemma {:induction false} LinesOfOneLine(s: string)
    requires '\n' !in s
    ensures Lines(s) == [s]
    decreases |s|
  {
    if s != [] {
      assert '\n' !in s[1..];
      LinesOfOneLine(s[1..]);
      assert [s[0]] + s[1..] == s;
    }
  }

  // ---------------------------------------------------------------------
  // Kernel#Float on decimal literals: an optional sign, digits, and an
  // optional fraction of at least one digit.

  predicate AllDigits(s: string)
  {
    forall i :: 0 <= i < |s| ==> IsDigit(s[i])
  }

  function DigitsValue(s: string): nat
    requires AllDigits(s)
    decreases |s|
  {
    if s == [] then 0
    else DigitsValue(s[..|s| - 1]) * 10 + (s[|s| - 1] as int - '0' as int)
  }

  function Pow10(n: nat): (p: nat)
    ensures p >= 1
  {
    if n == 0 then 1 else 10 * Pow10(n - 1)
  }

  /** The integer part of a literal and, after the first '.', its fraction. */
  function SplitAtDot(s: string): (string, Option<string>)
    decreases |s|
  {
    if s == [] then ([], None)
    else if s[0] == '.' then ([], Some(s[1..]))
    else
      var (whole, fraction) := SplitAtDot(s[1..]);
      ([s[0]] + whole, fraction)
  }

  /** A literal without a '.' has no fraction. */
  lemma {:induction false} SplitWithoutDot(s: string)
    requires '.' !in s
    ensures SplitAtDot(s) == (s, None)
    decreases |s|
  {
    if s != [] {
      assert '.' !in s[1..];
      SplitWithoutDot(s[1..]);
      assert [s[0]] + s[1..] == s;
    }
  }

  function ParseUnsigned(s: string): Option<real>
  {
    var (whole, fraction) := SplitAtDot(s);
    if whole == [] || !AllDigits(whole) then None
    else match fraction
      case None => Some(DigitsValue(whole) as real)
      case Some(f) =>
        if f == [] || !AllDigits(f) then None
        else Some(DigitsValue(whole) as real + DigitsValue(f) as real / Pow10(|f|) as real)
  }

  /** `Float(s)`, or None where Ruby raises ArgumentError. */
  function ParseFloat(s: string): Option<real>
  {
    if s != [] && s[0] == '-' then
      match ParseUnsigned(s[1..])
      case None => None
      case Some(v) => Some(-v)
    else if s != [] && s[0] == '+' then ParseUnsigned(s[1..])
    else ParseUnsigned(s)
  }

  /** A literal of digits only parses to the number it spells. */
  lemma IntegerLiteral(s: string)
    requires s != [] && AllDigits(s)
    ensures ParseFloat(s) == Some(DigitsValue(s) as real)
  {
    SplitWithoutDot(s);
  }

  /** A literal and its negation parse to opposite values. */
  lemma NegatedLiteral(s: string)
    requires s != [] && IsDigit(s[0])
    ensures ParseFloat("-" + s).Some? <==> ParseFloat(s).Some?
    ensures ParseFloat(s).Some? ==> ParseFloat("-" + s) == Some(-ParseFloat(s).value)
  {
    assert ("-" + s)[1..] == s;
  }

  /** A literal and the same literal with a leading '+' parse alike. */
  lemma PlusLiteral(s: string)
    requires s != [] && IsDigit(s[0])
    ensures ParseFloat("+" + s) == ParseFloat(s)
  {
    assert ("+" + s)[1..] == s;
  }

  /** The grammar `Float` accepts here, stated without `SplitAtDot`: digits,
      optionally followed by a '.' and more digits. */
  predicate IsUnsignedLiteral(s: string)
  {
    || (s != [] && AllDigits(s))
    || exists k :: 0 < k < |s| - 1 && s[k] == '.' && AllDigits(s[..k]) && AllDigits(s[k + 1..])
  }

  /** An optional sign, then an unsigned literal. */
  predicate IsDecimalLiteral(s: string)
  {
    if s != [] && (s[0] == '-' || s[0] == '+') then IsUnsignedLiteral(s[1..]) else IsUnsignedLiteral(s)
  }

  /** The position of the first '.', or `|s|` when there is none. */
  function IndexOfDot(s: string): (k: nat)
    ensures k <= |s|
    ensures forall j :: 0 <= j < k ==> s[j] != '.'
    ensures k < |s| ==> s[k] == '.'
    decreases |s|
  {
    if s == [] || s[0] == '.' then 0 else 1 + IndexOfDot(s[1..])
  }

  lemma {:induction false} SplitAtIndexOfDot(s: string)
    ensures IndexOfDot(s) == |s| ==> SplitAtDot(s) == (s, None)
    ensures IndexOfDot(s) < |s| ==> SplitAtDot(s) == (s[..IndexOfDot(s)], Some(s[IndexOfDot(s) + 1..]))
    decreases |s|
  {
    if s != [] && s[0] != '.' {
      SplitAtIndexOfDot(s[1..]);
      assert [s[0]] + s[1..] == s;
      var k := IndexOfDot(s[1..]);
      if k < |s[1..]| {
        assert [s[0]] + s[1..][..k] == s[..k + 1];
        assert s[1..][k + 1..] == s[k + 2..];
      }
    }
  }

  /** `ParseUnsigned` accepts exactly the unsigned literals. */
  lemma UnsignedLiteralAccepted(s: string)
    ensures ParseUnsigned(s).Some? <==> IsUnsignedLiteral(s)
  {
    SplitAtIndexOfDot(s);
    var k := IndexOfDot(s);
    if k == |s| {
      assert s[..k] == s;
    } else {
      assert !IsDigit(s[k]);
      assert !AllDigits(s);
      if IsUnsignedLiteral(s) {
        var j :| 0 < j < |s| - 1 && s[j] == '.' && AllDigits(s[..j]) && AllDigits(s[j + 1..]);
        assert j == k;
      }
    }
  }

  /** `Float(s)` succeeds exactly on decimal literals. */
  lemma DecimalLiteralAccepted(s: string)
    ensures ParseFloat(s).Some? <==> IsDecimalLiteral(s)
  {
    if s != [] && (s[0] == '-' || s[0] == '+') {
      UnsignedLiteralAccepted(s[1..]);
    } else {
      UnsignedLiteralAccepted(s);
    }
  }

  lemma {:induction false} DotAfterDigits(w: string, rest: string)
    requires AllDigits(w)
    ensures IndexOfDot(w + rest) == |w| + IndexOfDot(rest)
    decreases |w|
  {
    if w == [] {
      assert w + rest == rest;
    } else {
      assert (w + rest)[1..] == w[1..] + rest;
      assert (w + rest)[0] == w[0];
      assert AllDigits(w[1..]) by {
        forall i | 0 <= i < |w[1..]| ensures IsDigit(w[1..][i]) { assert w[1..][i] == w[i + 1]; }
      }
      DotAfterDigits(w[1..], rest);
      assert IsDigit(w[0]);
      assert IndexOfDot(w + rest) == 1 + IndexOfDot(w[1..] + rest);
    }
  }

  /** A literal with a fraction parses to its whole part plus its fraction
      digits over the matching power of ten. */
  lemma FractionLiteral(w: string, f: string)
    requires w != [] && AllDigits(w) && f != [] && AllDigits(f)
    ensures ParseFloat(w + "." + f)
      == Some(DigitsValue(w) as real + DigitsValue(f) as real / Pow10(|f|) as real)
  {
    var s := w + "." + f;
    SplitAtDigitsDot(w, f);
    UnsignedFirst(s);
    UnsignedOfSplit(s, w, f);
  }

  lemma UnsignedOfSplit(s: string, w: string, f: string)
    requires w != [] && AllDigits(w) && f != [] && AllDigits(f)
    requires SplitAtDot(s) == (w, Some(f))
    ensures ParseUnsigned(s) == Some(DigitsValue(w) as real + DigitsValue(f) as real / Pow10(|f|) as real)
  {
  }

  lemma UnsignedFirst(s: string)
    requires s != [] && IsDigit(s[0])
    ensures ParseFloat(s) == ParseUnsigned(s)
  {
  }

  lemma SplitAtDigitsDot(w: string, f: string)
    requires AllDigits(w)
    ensures SplitAtDot(w + "." + f) == (w, Some(f))
  {
    var s := w + ("." + f);
    assert s == w + "." + f;
    DotAfterDigits(w, "." + f);
    assert IndexOfDot("." + f) == 0;
    SplitAtIndexOfDot(s);
    assert s[..|w|] == w && s[|w| + 1..] == f;
  }

  /** The catalog's `-99.9` parses to -99.9. */
  lemma NegativeFractionExample()
    ensures ParseFloat("-99.9") == Some(-99.9)
  {
    assert DigitsValue("99") == 99 by {
      assert "99"[..1] == "9";
    }
    assert DigitsValue("9") == 9;
    FractionLiteral("99", "9");
    assert "99" + "." + "9" == "99.9";
    NegatedLiteral("99.9");
    assert "-" + "99.9" == "-99.9";
  }
}
