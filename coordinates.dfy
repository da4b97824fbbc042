/**
 * `CSVParser.extractCoordinates`: the latitude and longitude written in a directions URL as
 * `destination=<lat>,<lng>`, each read with `parseFloat`. Numbers are exact decimals.
 */
module Coordinates {
  import opened Wrappers
  import opened Decimal
  import opened Text

  const Key: string := "destination="

  /** The characters of `[-\d.]`. */
  predicate IsCoordChar(c: char) {
    c == '-' || c == '.' || IsDigit(c)
  }

  predicate AllCoordChars(s: string) {
    forall i :: 0 <= i < |s| ==> IsCoordChar(s[i])
  }

  /** The key occurs in `s` at position `k`. */
  predicate KeyAt(s: string, k: nat) {
    k + |Key| <= |s| && s[k..k + |Key|] == Key
  }

  /** The end of the maximal run of `[-\d.]` starting at `i`: what the greedy `[-\d.]+` takes. */
  function CoordRunEnd(s: string, i: nat): (e: nat)
    requires i <= |s|
    ensures i <= e <= |s|
    ensures e == |s| || !IsCoordChar(s[e])
    decreases |s| - i
  {
    if i < |s| && IsCoordChar(s[i]) then CoordRunEnd(s, i + 1) else i
  }

  /** Everything the run takes is in `[-\d.]`. */
  lemma {:induction false} CoordRunAll(s: string, i: nat)
    requires i <= |s|
    ensures AllCoordChars(s[i..CoordRunEnd(s, i)])
    decreases |s| - i
  {
    if i < |s| && IsCoordChar(s[i]) {
      CoordRunAll(s, i + 1);
      var e := CoordRunEnd(s, i);
      forall k | 0 <= k < e - i
        ensures IsCoordChar(s[i..e][k])
      {
        if k > 0 {
          assert s[i..e][k] == s[i + 1..e][k - 1];
        }
      }
    }
  }

  lemma {:induction false} CoordRunEndOf(s: string, i: nat, run: string, tail: string)
    requires i <= |s| && s[i..] == run + tail && AllCoordChars(run)
    requires tail == [] || !IsCoordChar(tail[0])
    ensures CoordRunEnd(s, i) == i + |run|
    decreases |run|
  {
    if run == [] {
      assert s[i..] == tail;
      if tail != [] {
        assert s[i] == tail[0];
      }
    } else {
      assert s[i] == run[0];
      assert s[i + 1..] == s[i..][1..];
      assert (run + tail)[1..] == run[1..] + tail;
      CoordRunEndOf(s, i + 1, run[1..], tail);
    }
  }

  /**
   * The two groups `([-\d.]+),([-\d.]+)` read from position `a`. Each group is greedy, and
   * giving back characters of the first group can never expose a comma, so the first group is
   * the whole run and must be followed by a comma; the second group is the whole run after it.
   */
  function GroupsAt(s: string, a: nat): (r: Option<(string, string)>)
    requires a <= |s|
    ensures r.Some? ==> |r.value.0| >= 1 && |r.value.1| >= 1
    ensures r.Some? ==> AllCoordChars(r.value.0) && AllCoordChars(r.value.1)
  {
    var b := CoordRunEnd(s, a);
    CoordRunAll(s, a);
    if a < b < |s| && s[b] == ',' then
      var c := CoordRunEnd(s, b + 1);
      CoordRunAll(s, b + 1);
      if b + 1 < c then Some((s[a..b], s[b + 1..c])) else None
    else
      None
  }

  /** The pattern `destination=([-\d.]+),([-\d.]+)` tried at position `k`. */
  function MatchAt(s: string, k: nat): (r: Option<(string, string)>)
    requires k <= |s|
    ensures r.Some? ==> KeyAt(s, k)
  {
    if KeyAt(s, k) then GroupsAt(s, k + |Key|) else None
  }

  /** The leftmost position at or after `from` where the pattern matches. */
  function FindMatch(s: string, from: nat): (r: Option<nat>)
    requires from <= |s|
    ensures r.Some? ==> from <= r.value <= |s| && MatchAt(s, r.value).Some?
    ensures r.Some? ==> forall k :: from <= k < r.value ==> MatchAt(s, k).None?
    ensures r.None? ==> forall k :: from <= k <= |s| ==> MatchAt(s, k).None?
    decreases |s| - from
  {
    if MatchAt(s, from).Some? then Some(from)
    else if from < |s| then FindMatch(s, from + 1)
    else None
  }

  // ---------------------------------------------------------------------------
  // parseFloat

  /**
   * The value of the longest prefix of `u` that is an unsigned decimal literal: digits with an
   * optional point and more digits, or a point followed by digits. None stands for NaN.
   */
  function UnsignedPrefix(u: string): (r: Option<real>)
    ensures r.Some? <==> (|u| > 0 && IsDigit(u[0])) || (|u| > 1 && u[0] == '.' && IsDigit(u[1]))
    ensures r.Some? ==> r.value >= 0.0
  {
    var w := DigitRunEnd(u, 0);
    var hasPoint := w < |u| && u[w] == '.';
    var f := if hasPoint then DigitRunEnd(u, w + 1) else w;
    if w == 0 && (!hasPoint || f == w + 1) then None
    else Some(DecimalValue(u[..w], if hasPoint then u[w + 1..f] else []))
  }

  /**
   * `parseFloat(t)` on a string that starts with its number: an optional sign, then the
   * longest decimal prefix; NaN (None) when there is none. Exponents and `Infinity` cannot
   * occur in a run of `[-\d.]` and are not modelled.
   */
  function ParseFloat(t: string): (r: Option<real>)
    ensures r.None? <==> UnsignedPrefix(if |t| > 0 && (t[0] == '-' || t[0] == '+') then t[1..] else t).None?
  {
    if |t| > 0 && t[0] == '-' then
      match UnsignedPrefix(t[1..])
      case Some(v) => Some(-v)
      case None => None
    else if |t| > 0 && t[0] == '+' then UnsignedPrefix(t[1..])
    else UnsignedPrefix(t)
  }

  /** A leading minus sign negates the number that follows; without a sign the number is read as is. */
  lemma ParseFloatSign(t: string, negative: bool, u: string)
    requires t == (if negative then "-" else "") + u
    requires |u| > 0 && (IsDigit(u[0]) || u[0] == '.')
    ensures ParseFloat(t) == if negative then (if UnsignedPrefix(u).Some? then Some(-UnsignedPrefix(u).value) else None)
                             else UnsignedPrefix(u)
  {
    if negative {
      assert t[0] == '-' && t[1..] == u;
    } else {
      assert t == u;
    }
  }

  /**
   * A decimal `whole.frac` followed by anything that is not a digit reads as its exact
   * value; the point may be left out when `frac` is empty and what follows is not a point.
   */
  lemma UnsignedPrefixOf(u: string, whole: string, point: bool, frac: string, rest: string)
    requires AllDigits(whole) && AllDigits(frac) && |whole| + |frac| >= 1
    requires point || frac == []
    requires u == whole + (if point then "." else "") + frac + rest
    requires rest == [] || !IsDigit(rest[0])
    requires point || rest == [] || rest[0] != '.'
    ensures UnsignedPrefix(u) == Some(DecimalValue(whole, frac))
  {
    var w := |whole|;
    assert u[..w] == whole;
    if point {
      assert u[w] == '.';
      assert u[w + 1..w + 1 + |frac|] == frac;
      if rest != [] {
        assert u[w + 1 + |frac|] == rest[0];
      }
      DigitRunEndOf(u, w + 1, frac);
    } else {
      if rest != [] {
        assert u[w] == rest[0];
      }
    }
    assert u[0..w] == whole;
    DigitRunEndOf(u, 0, whole);
  }

  // ---------------------------------------------------------------------------
  // extractCoordinates

  /**
   * `extractCoordinates(mapUrl)`: null for an empty URL, for a URL without a
   * `destination=<run>,<run>` occurrence, and when either run has no numeric prefix;
   * otherwise the two numbers of the first occurrence.
   */
  function ExtractCoordinates(url: string): (r: Option<(real, real)>)
    ensures url == [] ==> r.None?
    ensures r.Some? ==> exists k: nat :: KeyAt(url, k)
    ensures FindMatch(url, 0).None? ==> r.None?
    ensures (forall k: nat :: k <= |url| ==> MatchAt(url, k).None?) ==> r.None?
  {
    if url == [] then None
    else
      match FindMatch(url, 0)
      case None => None
      case Some(k) =>
        assert KeyAt(url, k);
        var (lat, lng) := MatchAt(url, k).value;
        if ParseFloat(lat).Some? && ParseFloat(lng).Some? then Some((ParseFloat(lat).value, ParseFloat(lng).value))
        else None
  }

  /** `Key` does not occur in `p`. */
  predicate KeyFree(p: string) {
    forall k: nat :: k <= |p| ==> !KeyAt(p, k)
  }

  /** Before an occurrence of the key that is preceded by key-free text, the pattern cannot match. */
  lemma NoEarlierMatch(url: string, p: string, k: nat)
    requires |p| + |Key| <= |url| && url[..|p|] == p && url[|p|..|p| + |Key|] == Key && KeyFree(p)
    requires k < |p|
    ensures MatchAt(url, k).None?
  {
    if k + |Key| <= |p| {
      forall j | k <= j < k + |Key|
        ensures url[j] == p[j]
      {
        assert url[j] == url[..|p|][j];
      }
      assert url[k..k + |Key|] == p[k..k + |Key|];
      assert !KeyAt(p, k);
    } else {
      var i := k + |Key| - 1;
      assert url[i] == url[|p|..|p| + |Key|][i - |p|];
      assert Key[i - |p|] != '=';
      assert url[k..k + |Key|][|Key| - 1] == url[i];
    }
    assert !KeyAt(url, k);
  }

  /** Two runs separated by a comma are read as the two groups. */
  lemma GroupsOf(s: string, a: nat, lat: string, lng: string, rest: string)
    requires a <= |s| && s[a..] == lat + ("," + (lng + rest))
    requires |lat| >= 1 && AllCoordChars(lat) && |lng| >= 1 && AllCoordChars(lng)
    requires rest == [] || !IsCoordChar(rest[0])
    ensures GroupsAt(s, a) == Some((lat, lng))
  {
    RunsOf(s, a, lat, lng, rest);
    GroupsAtRuns(s, a, a + |lat|, a + |lat| + 1 + |lng|);
  }

  /** Where the two runs and the comma between them lie. */
  lemma RunsOf(s: string, a: nat, lat: string, lng: string, rest: string)
    requires a <= |s| && s[a..] == lat + ("," + (lng + rest))
    requires AllCoordChars(lat) && AllCoordChars(lng)
    requires rest == [] || !IsCoordChar(rest[0])
    ensures a + |lat| < |s| && s[a + |lat|] == ','
    ensures CoordRunEnd(s, a) == a + |lat| && s[a..a + |lat|] == lat
    ensures CoordRunEnd(s, a + |lat| + 1) == a + |lat| + 1 + |lng| && s[a + |lat| + 1..a + |lat| + 1 + |lng|] == lng
  {
    var b := a + |lat|;
    var after := "," + (lng + rest);
    assert after[0] == ',';
    RunAt(s, a, lat, after);
    CommaAt(s, b, lng + rest);
    RunAt(s, b + 1, lng, rest);
  }

  /** A run of `[-\d.]` at `i` followed by `tail` is taken whole. */
  lemma RunAt(s: string, i: nat, run: string, tail: string)
    requires i <= |s| && s[i..] == run + tail && AllCoordChars(run)
    requires tail == [] || !IsCoordChar(tail[0])
    ensures CoordRunEnd(s, i) == i + |run| && s[i..i + |run|] == run && s[i + |run|..] == tail
  {
    SuffixSplit(s, i, run, tail);
    CoordRunEndOf(s, i, run, tail);
  }

  lemma CommaAt(s: string, b: nat, tail: string)
    requires b <= |s| && s[b..] == "," + tail
    ensures b < |s| && s[b] == ',' && s[b + 1..] == tail
  {
    SuffixSplit(s, b, ",", tail);
    assert s[b] == s[b..b + 1][0];
  }

  lemma GroupsAtRuns(s: string, a: nat, b: nat, c: nat)
    requires a < b < |s| && s[b] == ',' && b + 1 < c <= |s|
    requires CoordRunEnd(s, a) == b && CoordRunEnd(s, b + 1) == c
    ensures GroupsAt(s, a) == Some((s[a..b], s[b + 1..c]))
  {
  }

  /** At an occurrence of the key followed by two runs, the pattern matches with the runs as its groups. */
  lemma MatchAtOccurrence(s: string, k: nat, lat: string, lng: string, rest: string)
    requires k <= |s| && s[k..] == Key + (lat + ("," + (lng + rest)))
    requires |lat| >= 1 && AllCoordChars(lat) && |lng| >= 1 && AllCoordChars(lng)
    requires rest == [] || !IsCoordChar(rest[0])
    ensures MatchAt(s, k) == Some((lat, lng))
  {
    var a := k + |Key|;
    assert s[k..a] == s[k..][..|Key|];
    assert s[a..] == s[k..][|Key|..];
    GroupsOf(s, a, lat, lng, rest);
  }

  /**
   * The coordinates are read from the first occurrence of `destination=<lat>,<lng>`: when
   * the text before it does not contain the key, the result is the two numbers `parseFloat`
   * reads from the two runs, or null if either has no numeric prefix.
   */
  lemma ExtractsFirstDestination(url: string, p: string, lat: string, lng: string, rest: string)
    requires url == p + Key + lat + "," + lng + rest && KeyFree(p)
    requires |lat| >= 1 && AllCoordChars(lat) && |lng| >= 1 && AllCoordChars(lng)
    requires rest == [] || !IsCoordChar(rest[0])
    ensures ExtractCoordinates(url) ==
      if ParseFloat(lat).Some? && ParseFloat(lng).Some? then Some((ParseFloat(lat).value, ParseFloat(lng).value))
      else None
  {
    assert url[..|p|] == p;
    assert url[|p|..] == Key + (lat + ("," + (lng + rest)));
    assert url[|p|..|p| + |Key|] == Key;
    MatchAtOccurrence(url, |p|, lat, lng, rest);
    forall k | 0 <= k < |p|
      ensures MatchAt(url, k).None?
    {
      NoEarlierMatch(url, p, k);
    }
    assert FindMatch(url, 0) == Some(|p|);
  }

  /** The smallest Florida example: a directions link to Tampa. */
  lemma TampaExample(url: string)
    requires url == "maps?destination=27.9506,-82.4572"
    ensures ExtractCoordinates(url) == Some((27.9506, -82.4572))
  {
    var p, lat, lng := "maps?", "27.9506", "-82.4572";
    TampaUrl(url, p, lat, lng);
    ExtractsFirstDestination(url, p, lat, lng, "");
    TampaLatitude(lat);
    TampaLongitude(lng);
    TampaValues();
  }

  lemma TampaUrl(url: string, p: string, lat: string, lng: string)
    requires url == "maps?destination=27.9506,-82.4572"
    requires p == "maps?" && lat == "27.9506" && lng == "-82.4572"
    ensures url == p + Key + lat + "," + lng + ""
    ensures KeyFree(p) && |lat| >= 1 && AllCoordChars(lat) && |lng| >= 1 && AllCoordChars(lng)
  {
    forall k: nat | k <= |p|
      ensures !KeyAt(p, k)
    {
    }
  }

  lemma TampaLatitude(t: string)
    requires t == "27.9506"
    ensures ParseFloat(t) == Some(DecimalValue("27", "9506"))
  {
    TampaDigits(t, "27", "9506");
    ParseFloatSign(t, false, t);
  }

  lemma TampaLongitude(t: string)
    requires t == "-82.4572"
    ensures ParseFloat(t) == Some(-DecimalValue("82", "4572"))
  {
    LongitudeText(t);
    var u := t[1..];
    TampaDigits(u, "82", "4572");
    assert t == [t[0]] + u;
    ParseFloatSign(t, true, u);
  }

  lemma LongitudeText(t: string)
    requires t == "-82.4572"
    ensures |t| == 8 && t[0] == '-' && t[1..] == "82" + "." + "4572"
  {
  }

  lemma TampaDigits(u: string, whole: string, frac: string)
    requires u == whole + "." + frac && |whole| == 2 && |frac| == 4
    requires AllDigits(whole) && AllDigits(frac)
    ensures UnsignedPrefix(u) == Some(DecimalValue(whole, frac))
  {
    assert u == whole + "." + frac + "";
    UnsignedPrefixOf(u, whole, true, frac, "");
  }

  lemma TampaValues()
    ensures DecimalValue("27", "9506") == 27.9506
    ensures DecimalValue("82", "4572") == 82.4572
  {
    NatOfTwo("27");
    NatOfTwo("82");
    NatOfFour("9506");
    NatOfFour("4572");
    assert Pow10(4) == 10000;
  }

  /** A run with no numeric prefix, such as a lone minus sign, makes the whole result null. */
  lemma SignWithoutDigitsIsRejected(url: string)
    requires url == "destination=-,5"
    ensures ExtractCoordinates(url) == None
  {
    assert url == [] + Key + "-" + "," + "5" + "";
    assert AllCoordChars("-") && AllCoordChars("5");
    assert KeyFree([]) by {
      forall k: nat | k <= 0 ensures !KeyAt([], k) {}
    }
    ExtractsFirstDestination(url, [], "-", "5", "");
    assert "-"[1..] == [];
  }
}
