/**
  The version string of the mod's metadata: three dot-separated decimal parts
  `major.minor.patch`, the normal version of Semantic Versioning 2.0.0 without
  pre-release or build suffixes, and with leading zeros tolerated on input.
*/
module SemVer {
  import opened Wrappers
  import opened Strings
  import opened Decimal

  datatype Version = Version(major: nat, minor: nat, patch: nat)

  /** The script's acceptance test on the pieces of the split string: exactly
      three of them, each a non-empty run of digits. */
  predicate WellFormedParts(parts: seq<string>)
  {
    |parts| == 3 && IsDigits(parts[0]) && IsDigits(parts[1]) && IsDigits(parts[2])
  }

  /** `s` is spelled `a.b.c` with three non-empty digit runs. */
  predicate ComposedOf(s: string, a: string, b: string, c: string)
  {
    IsDigits(a) && IsDigits(b) && IsDigits(c) && s == a + "." + b + "." + c
  }

  /** The accepted language, stated without Split: the pattern
      `^[0-9]+\.[0-9]+\.[0-9]+$`. */
  ghost predicate IsVersionText(s: string)
  {
    exists a, b, c :: ComposedOf(s, a, b, c)
  }

  /** Reads a version string: split on '.', check the pieces, convert each to
      its decimal value. None stands for the rejection of a malformed string. */
  function Parse(s: string): Option<Version>
  {
    var parts := Split(s, '.');
    if WellFormedParts(parts) then
      Some(Version(ParseNat(parts[0]), ParseNat(parts[1]), ParseNat(parts[2])))
    else
      None
  }

  /** Writes a version as `major.minor.patch` in plain decimal, no padding. */
  function Render(v: Version): string
  {
    RenderNat(v.major) + "." + RenderNat(v.minor) + "." + RenderNat(v.patch)
  }

  /** Three digit runs joined by dots parse to their three decimal values. */
  lemma ParseComponents(a: string, b: string, c: string)
    requires IsDigits(a) && IsDigits(b) && IsDigits(c)
    ensures Parse(a + "." + b + "." + c) == Some(Version(ParseNat(a), ParseNat(b), ParseNat(c)))
  {
    var parts := [a, b, c];
    assert SeparatorFree(parts, '.');
    JoinThree(a, b, c, '.');
    SplitJoin(parts, '.');
  }

  /** A string the script accepts is always spelled as three digit runs
      joined by dots, and its value is read from those runs. */
  lemma ParseAcceptedShape(s: string)
    requires Parse(s).Some?
    ensures var parts := Split(s, '.');
      |parts| == 3 && ComposedOf(s, parts[0], parts[1], parts[2]) &&
      Parse(s).value == Version(ParseNat(parts[0]), ParseNat(parts[1]), ParseNat(parts[2]))
  {
    var parts := Split(s, '.');
    SplitIsDecomposition(s, '.');
    assert parts == [parts[0], parts[1], parts[2]];
    JoinThree(parts[0], parts[1], parts[2], '.');
  }

  /** The exact acceptance predicate: Parse succeeds on precisely the strings
      matching `^[0-9]+\.[0-9]+\.[0-9]+$`, so "1.2", "1.2.3.4", "1..2",
      "1.2." and "1.2.x" are all rejected. */
  lemma ParseAcceptsExactly(s: string)
    ensures Parse(s).Some? <==> IsVersionText(s)
  {
    if Parse(s).Some? {
      ParseAcceptedShape(s);
      var parts := Split(s, '.');
      assert ComposedOf(s, parts[0], parts[1], parts[2]);
    }
    if IsVersionText(s) {
      var a, b, c :| ComposedOf(s, a, b, c);
      ParseComponents(a, b, c);
    }
  }

  /** Round trip: a rendered version is accepted and parses back to itself. */
  lemma ParseRender(v: Version)
    ensures IsVersionText(Render(v))
    ensures Parse(Render(v)) == Some(v)
  {
    var a, b, c := RenderNat(v.major), RenderNat(v.minor), RenderNat(v.patch);
    ParseComponents(a, b, c);
    ParseRenderNat(v.major);
    ParseRenderNat(v.minor);
    ParseRenderNat(v.patch);
    assert ComposedOf(Render(v), a, b, c);
  }

  /** Round trip the other way: rendering what was parsed gives the input back
      with the leading zeros of each part removed ("01.2.003" becomes "1.2.3"). */
  lemma RenderParse(a: string, b: string, c: string)
    requires IsDigits(a) && IsDigits(b) && IsDigits(c)
    ensures Parse(a + "." + b + "." + c).Some?
    ensures Render(Parse(a + "." + b + "." + c).value)
      == StripLeadingZeros(a) + "." + StripLeadingZeros(b) + "." + StripLeadingZeros(c)
  {
    ParseComponents(a, b, c);
    RenderParseStripsZeros(a);
    RenderParseStripsZeros(b);
    RenderParseStripsZeros(c);
  }

  /** The script's version step on the string alone: parse, add one to the
      patch, render. None when the string is malformed. The result is again an
      accepted version string, with the same major and minor and the patch one
      higher. */
  function BumpPatch(s: string): (r: Option<string>)
    ensures r.Some? <==> Parse(s).Some?
    ensures r.Some? <==> IsVersionText(s)
    ensures r.Some? ==> IsVersionText(r.value)
    ensures r.Some? ==> Parse(r.value) == Some(Version(Parse(s).value.major, Parse(s).value.minor, Parse(s).value.patch + 1))
    ensures r.Some? ==> r.value == Render(Version(Parse(s).value.major, Parse(s).value.minor, Parse(s).value.patch + 1))
  {
    ParseAcceptsExactly(s);
    match Parse(s)
    case None => None
    case Some(v) =>
      var next := Version(v.major, v.minor, v.patch + 1);
      ParseRender(next);
      Some(Render(next))
  }

  /** Bumping is not idempotent: each success strictly raises the patch, so
      the result always differs from the input, and bumping twice adds two. */
  lemma BumpTwice(s: string)
    requires Parse(s).Some?
    ensures BumpPatch(s).Some? && BumpPatch(s).value != s
    ensures BumpPatch(BumpPatch(s).value).Some?
    ensures var v := Parse(s).value;
      BumpPatch(BumpPatch(s).value) == Some(Render(Version(v.major, v.minor, v.patch + 2)))
  {
  }

  /** On the parts of an accepted string: the result is the decimal value of
      the major part, a dot, that of the minor part, a dot, and one more than
      the value of the patch part. */
  lemma BumpComponents(a: string, b: string, c: string)
    requires IsDigits(a) && IsDigits(b) && IsDigits(c)
    ensures BumpPatch(a + "." + b + "." + c)
      == Some(RenderNat(ParseNat(a)) + "." + RenderNat(ParseNat(b)) + "." + RenderNat(ParseNat(c) + 1))
  {
    var s := a + "." + b + "." + c;
    ParseComponents(a, b, c);
    var v := Version(ParseNat(a), ParseNat(b), ParseNat(c));
    assert Parse(s) == Some(v);
    assert BumpPatch(s).Some?;
    assert BumpPatch(s).value == Render(Version(v.major, v.minor, v.patch + 1));
  }

  /** The plain case: "1.2.3" becomes "1.2.4". */
  lemma BumpPlain(s: string)
    requires s == "1.2.3"
    ensures BumpPatch(s) == Some("1.2.4")
  {
    assert "1" + "." + "2" + "." + "3" == s;
    BumpComponents("1", "2", "3");
    assert ParseNat("1") == 1 && ParseNat("2") == 2 && ParseNat("3") == 3 by {
      assert "1"[..0] == "" && "2"[..0] == "" && "3"[..0] == "";
    }
    assert RenderNat(1) == "1" && RenderNat(2) == "2" && RenderNat(4) == "4";
    assert BumpPatch(s) == Some("1" + "." + "2" + "." + "4");
    assert "1" + "." + "2" + "." + "4" == "1.2.4";
  }

  /** Leading zeros are normalised away: "1.2.03" becomes "1.2.4". */
  lemma BumpDropsLeadingZero(s: string)
    requires s == "1.2.03"
    ensures BumpPatch(s) == Some("1.2.4")
  {
    assert "1" + "." + "2" + "." + "03" == s;
    BumpComponents("1", "2", "03");
    assert ParseNat("1") == 1 && ParseNat("2") == 2 by {
      assert "1"[..0] == "" && "2"[..0] == "";
    }
    assert ParseNat("03") == 3 by {
      assert "03"[..1] == "0";
      assert "0"[..0] == "";
    }
    assert RenderNat(1) == "1" && RenderNat(2) == "2" && RenderNat(4) == "4";
    assert BumpPatch(s) == Some("1" + "." + "2" + "." + "4");
    assert "1" + "." + "2" + "." + "4" == "1.2.4";
  }

  /** A carry into a new digit: "0.1.09" becomes "0.1.10". */
  lemma BumpCarries(s: string)
    requires s == "0.1.09"
    ensures BumpPatch(s) == Some("0.1.10")
  {
    assert "0" + "." + "1" + "." + "09" == s;
    BumpComponents("0", "1", "09");
    assert ParseNat("0") == 0 && ParseNat("1") == 1 by {
      assert "0"[..0] == "" && "1"[..0] == "";
    }
    assert ParseNat("09") == 9 by {
      assert "09"[..1] == "0";
      assert "0"[..0] == "";
    }
    assert RenderNat(0) == "0" && RenderNat(1) == "1";
    assert RenderNat(10) == "10";
    assert BumpPatch(s) == Some("0" + "." + "1" + "." + "10");
    assert "0" + "." + "1" + "." + "10" == "0.1.10";
  }

  /** Malformed strings: a missing part, an extra part, a non-digit, an empty
      part, a trailing dot. */
  lemma BumpRejectsMalformed(s: string)
    requires s == "1.2" || s == "1.2.3.4" || s == "1.2.x" || s == "1..2" || s == "1.2."
    ensures BumpPatch(s) == None
  {
    var parts: seq<string>;
    if s == "1.2" {
      parts := ["1", "2"];
    } else if s == "1.2.3.4" {
      parts := ["1", "2", "3", "4"];
    } else if s == "1.2.x" {
      parts := ["1", "2", "x"];
      assert !IsDigit(parts[2][0]);
    } else if s == "1..2" {
      parts := ["1", "", "2"];
    } else {
      parts := ["1", "2", ""];
    }
    assert s == Join(parts, '.');
    SplitJoin(parts, '.');
    assert !WellFormedParts(parts);
  }
}
