/**
 * One line of the locations CSV, split into fields the way `CSVParser.parseCSVLine` does it:
 * by collecting every match of the global pattern
 *     (?:^|,)("(?:[^"]|"")*"|[^,]*)
 * under ECMAScript's `String.prototype.match`, then cleaning each match.
 *
 * Positions are indexes into the line. A match begins either at position 0 (the `^`
 * alternative) or at a comma, and its field part is either a quoted field or a run of
 * non-commas.
 */
module CsvLine {
  import opened Wrappers
  import opened Text

  // ---------------------------------------------------------------------------
  // The pattern, one match at a time

  /**
   * The end of the quoted alternative `"(?:[^"]|"")*"` whose body starts at `j` (just past
   * the opening quote). The repetition is greedy: a non-quote or a doubled quote is taken
   * whenever possible. It stops at a quote not followed by another quote, which closes the
   * field. If it runs off the end of the line instead, the engine backtracks through the
   * iterations taken; the only ones that can give way to the closing quote are the doubled
   * quotes, and the latest of them (`lastPair`) wins: its first quote closes the field. With
   * no doubled quote to fall back on the alternative fails.
   */
  function QuotedEnd(s: string, j: nat, lastPair: Option<nat>): (r: Option<nat>)
    requires j <= |s|
    requires lastPair.Some? ==> lastPair.value + 2 <= j && s[lastPair.value] == '"'
    ensures r.Some? ==> r.value <= |s| && 0 < r.value && s[r.value - 1] == '"'
    ensures r.Some? ==> if lastPair.Some? then lastPair.value < r.value else j < r.value
    decreases |s| - j
  {
    if j == |s| then
      (if lastPair.Some? then Some(lastPair.value + 1) else None)
    else if s[j] != '"' then
      QuotedEnd(s, j + 1, lastPair)
    else if j + 1 < |s| && s[j + 1] == '"' then
      QuotedEnd(s, j + 2, Some(j))
    else
      Some(j + 1)
  }

  /** The end of the alternative `[^,]*` starting at `q`: the next comma, or the end of the line. */
  function PlainEnd(s: string, q: nat): (e: nat)
    requires q <= |s|
    ensures q <= e <= |s| && (e == |s| || s[e] == ',')
    decreases |s| - q
  {
    if q == |s| || s[q] == ',' then q else PlainEnd(s, q + 1)
  }

  /** The plain field holds no comma: it runs up to the first one. */
  lemma {:induction false} PlainEndStopsAtComma(s: string, q: nat)
    requires q <= |s|
    ensures forall i :: q <= i < PlainEnd(s, q) ==> s[i] != ','
    decreases |s| - q
  {
    if q < |s| && s[q] != ',' {
      PlainEndStopsAtComma(s, q + 1);
    }
  }

  /** The end of the field part of a match, which starts at `q`: quoted if that succeeds, else plain. */
  function FieldEnd(s: string, q: nat): (e: nat)
    requires q <= |s|
    ensures q <= e <= |s|
  {
    if q < |s| && s[q] == '"' && QuotedEnd(s, q + 1, None).Some? then
      QuotedEnd(s, q + 1, None).value
    else
      PlainEnd(s, q)
  }

  /**
   * The end of the match that begins at `k`, if one does. At 0 the `^` alternative succeeds
   * (the field part can always match the empty string); elsewhere a comma is needed.
   */
  function MatchAt(s: string, k: nat): (r: Option<nat>)
    requires k <= |s|
    ensures r.Some? <==> k == 0 || (k < |s| && s[k] == ',')
    ensures r.Some? ==> k <= r.value <= |s| && (k > 0 ==> k < r.value)
  {
    if k == 0 then Some(FieldEnd(s, 0))
    else if k < |s| && s[k] == ',' then Some(FieldEnd(s, k + 1))
    else None
  }

  /** The leftmost match beginning at or after `from`, as (start, end). */
  function NextMatch(s: string, from: nat): (r: Option<(nat, nat)>)
    requires from <= |s|
    ensures r.Some? ==> from <= r.value.0 <= r.value.1 <= |s| && MatchAt(s, r.value.0) == Some(r.value.1)
    ensures r.Some? ==> forall k :: from <= k < r.value.0 ==> MatchAt(s, k).None?
    ensures r.None? ==> forall k :: from <= k <= |s| ==> MatchAt(s, k).None?
    decreases |s| - from
  {
    match MatchAt(s, from)
    case Some(e) => Some((from, e))
    case None => if from < |s| then NextMatch(s, from + 1) else None
  }

  /**
   * Every match from `lastIndex` on, as `match` with the global flag collects them: after a
   * match the search resumes at its end, except that after an EMPTY match `lastIndex` is moved
   * one position further; once `lastIndex` is past the end nothing more matches.
   */
  function MatchAll(s: string, lastIndex: nat): seq<string>
    decreases |s| + 1 - lastIndex
  {
    if lastIndex > |s| then []
    else
      match NextMatch(s, lastIndex)
      case None => []
      case Some((k, e)) => [s[k..e]] + MatchAll(s, if e == k then e + 1 else e)
  }

  // ---------------------------------------------------------------------------
  // Cleaning a match

  /** `replace(/""/g, '"')`: every doubled quote, scanning left to right, becomes one quote. */
  function Unescape(t: string): string
    decreases |t|
  {
    if |t| >= 2 && t[0] == '"' && t[1] == '"' then "\"" + Unescape(t[2..])
    else if t == [] then []
    else [t[0]] + Unescape(t[1..])
  }

  /**
   * One match turned into a field value: the comma that introduced it is dropped and, when
   * what is left starts and ends with a quote, the outer characters are sliced off (a lone
   * quote leaves nothing) and doubled quotes are undone; anything else is kept as it is.
   */
  function CleanField(m: string): string {
    var f := if |m| > 0 && m[0] == ',' then m[1..] else m;
    if |f| > 0 && f[0] == '"' && f[|f| - 1] == '"' then
      Unescape(if |f| >= 2 then f[1..|f| - 1] else [])
    else
      f
  }

  function CleanAll(ms: seq<string>): (r: seq<string>)
    ensures |r| == |ms|
  {
    if ms == [] then [] else [CleanField(ms[0])] + CleanAll(ms[1..])
  }

  lemma CleanAllConcat(a: seq<string>, b: seq<string>)
    ensures CleanAll(a + b) == CleanAll(a) + CleanAll(b)
  {
    if a == [] {
      assert a + b == b;
    } else {
      assert (a + b)[1..] == a[1..] + b;
      CleanAllConcat(a[1..], b);
    }
  }

  lemma CleanAllCons(m: string, ms: seq<string>)
    ensures CleanAll([m] + ms) == [CleanField(m)] + CleanAll(ms)
  {
    assert ([m] + ms)[1..] == ms;
  }

  // ---------------------------------------------------------------------------
  // The parser as written, and the parser as intended

  /**
   * `parseCSVLine(line)`. The pattern always matches at position 0, so `match` never returns
   * null and there is always at least one field.
   */
  function ParseCsvLine(line: string): (r: seq<string>)
    ensures |r| >= 1
    ensures r[0] == CleanField(line[..FieldEnd(line, 0)])
  {
    assert NextMatch(line, 0) == Some((0, FieldEnd(line, 0)));
    CleanAll(MatchAll(line, 0))
  }

  /** The matches that begin at a comma at or after `from`, each running to the end of its field. */
  function CommaMatches(s: string, from: nat): seq<string>
    decreases |s| - from
  {
    if from >= |s| then []
    else if s[from] == ',' then
      var e := FieldEnd(s, from + 1);
      [s[from..e]] + CommaMatches(s, e)
    else
      CommaMatches(s, from + 1)
  }

  /**
   * The parser with the empty-first-field case handled: the search for the next separator
   * resumes where the first field ends, even when that field is empty, so a separator at
   * position 0 is not skipped.
   */
  function ParseCsvLineFixed(line: string): (r: seq<string>)
    ensures |r| >= 1
  {
    var e0 := FieldEnd(line, 0);
    CleanAll([line[..e0]] + CommaMatches(line, e0))
  }

  /** From any position past 0, the global search finds exactly the comma matches. */
  lemma {:induction false} MatchAllFromComma(s: string, from: nat)
    requires 1 <= from
    ensures MatchAll(s, from) == CommaMatches(s, from)
    decreases |s| - from
  {
    if from < |s| {
      if s[from] == ',' {
        var e := FieldEnd(s, from + 1);
        assert NextMatch(s, from) == Some((from, e));
        MatchAllFromComma(s, e);
      } else {
        assert NextMatch(s, from) == NextMatch(s, from + 1);
        MatchAllFromComma(s, from + 1);
      }
    } else if from == |s| {
      assert NextMatch(s, from).None?;
    }
  }

  /** The as-written matches: the first field, then the comma matches from its end, or from 1 if it is empty. */
  lemma MatchAllShape(s: string)
    ensures var e0 := FieldEnd(s, 0);
            MatchAll(s, 0) == [s[..e0]] + CommaMatches(s, if e0 == 0 then 1 else e0)
  {
    var e0 := FieldEnd(s, 0);
    assert NextMatch(s, 0) == Some((0, e0));
    MatchAllFromComma(s, if e0 == 0 then 1 else e0);
  }

  /** Unless the line starts with a comma, the parser as written gives the intended fields. */
  lemma AsWrittenAgreesWithoutLeadingComma(line: string)
    requires line == [] || line[0] != ','
    ensures ParseCsvLine(line) == ParseCsvLineFixed(line)
  {
    MatchAllShape(line);
    var e0 := FieldEnd(line, 0);
    if line != [] {
      if !(line[0] == '"' && QuotedEnd(line, 1, None).Some?) {
        assert e0 == PlainEnd(line, 0);
      }
      assert e0 > 0;
    }
  }

  /** No comma between `from` and `to`: the comma matches are the same from either position. */
  lemma {:induction false} CommaMatchesSkip(s: string, from: nat, to: nat)
    requires from <= to <= |s|
    requires forall i :: from <= i < to ==> s[i] != ','
    ensures CommaMatches(s, from) == CommaMatches(s, to)
    decreases |s| - from
  {
    if from < to {
      CommaMatchesSkip(s, from + 1, to);
    }
  }

  /**
   * What goes wrong as written: on a line that starts with a comma (an empty first field) and
   * whose second field is not quoted, the second field is lost; every other field is kept.
   */
  lemma LeadingEmptyFieldDropsSecond(line: string)
    requires |line| >= 1 && line[0] == ','
    requires |line| == 1 || line[1] != '"'
    ensures |ParseCsvLineFixed(line)| >= 2
    ensures ParseCsvLine(line) == [ParseCsvLineFixed(line)[0]] + ParseCsvLineFixed(line)[2..]
  {
    LeadingCommaMatches(line);
    var e1 := FieldEnd(line, 1);
    var rest := CommaMatches(line, e1);
    assert CommaMatches(line, 0) == [line[0..e1]] + rest;
    CleanDropsSecond(line[..0], line[0..e1], rest);
  }

  /** On a line led by a comma and an unquoted field, the search as written skips to the end of that field. */
  lemma LeadingCommaMatches(line: string)
    requires |line| >= 1 && line[0] == ','
    requires |line| == 1 || line[1] != '"'
    ensures FieldEnd(line, 0) == 0
    ensures MatchAll(line, 0) == [line[..0]] + CommaMatches(line, FieldEnd(line, 1))
  {
    MatchAllShape(line);
    assert FieldEnd(line, 0) == 0;
    var e1 := FieldEnd(line, 1);
    assert e1 == PlainEnd(line, 1);
    PlainEndStopsAtComma(line, 1);
    CommaMatchesSkip(line, 1, e1);
  }

  /** Cleaning a list without its second match is cleaning the whole list and dropping the second field. */
  lemma CleanDropsSecond(a: string, b: string, rest: seq<string>)
    ensures |CleanAll([a] + ([b] + rest))| >= 2
    ensures CleanAll([a] + rest) == [CleanAll([a] + ([b] + rest))[0]] + CleanAll([a] + ([b] + rest))[2..]
  {
    CleanAllCons(a, [b] + rest);
    CleanAllCons(b, rest);
    CleanAllCons(a, rest);
    var whole := [CleanField(a)] + ([CleanField(b)] + CleanAll(rest));
    assert whole[0] == CleanField(a) && whole[2..] == CleanAll(rest);
  }

  /** The smallest instance: ",b,c" loses "b" as written and keeps it when fixed. */
  lemma LeadingCommaExample(line: string)
    requires line == ",b,c"
    ensures ParseCsvLine(line) == ["", "c"]
    ensures ParseCsvLineFixed(line) == ["", "b", "c"]
  {
    assert line[0] == ',' && line[1] == 'b' && line[2] == ',' && line[3] == 'c' && |line| == 4;
    LeadingEmptyFieldDropsSecond(line);
    assert FieldEnd(line, 0) == 0;
    assert PlainEnd(line, 2) == 2;
    assert FieldEnd(line, 1) == 2;
    assert PlainEnd(line, 4) == 4;
    assert FieldEnd(line, 3) == 4;
    assert CommaMatches(line, 2) == [line[2..4]] + CommaMatches(line, 4);
    assert CommaMatches(line, 0) == [line[0..2]] + CommaMatches(line, 2);
    var fixed := [line[..0], line[0..2], line[2..4]];
    assert [line[..0]] + CommaMatches(line, 0) == fixed;
    assert line[0..2] == [','] + ['b'] && line[2..4] == [','] + ['c'];
    assert CleanField(line[0..2]) == "b";
    assert CleanField(line[2..4]) == "c";
    assert CleanField(line[..0]) == "";
    assert CleanAll(fixed) == ["", "b", "c"] by {
      assert fixed[1..] == [line[0..2], line[2..4]];
      assert fixed[1..][1..] == [line[2..4]];
      assert CleanAll([line[2..4]]) == ["c"];
      assert CleanAll(fixed[1..]) == ["b", "c"];
    }
  }

  // ---------------------------------------------------------------------------
  // Round trip: fields written out as CSV are read back

  /** A field as it may be written on a line: bare text, or quoted with inner quotes doubled. */
  datatype Field = Plain(text: string) | Quoted(text: string)

  /** A bare field can hold no comma and cannot start with a quote; a quoted one can hold anything. */
  predicate WellFormed(f: Field) {
    f.Plain? ==> ',' !in f.text && (f.text == [] || f.text[0] != '"')
  }

  function Escape(t: string): string {
    if t == [] then []
    else (if t[0] == '"' then "\"\"" else [t[0]]) + Escape(t[1..])
  }

  function Encode(f: Field): string {
    match f
    case Plain(t) => t
    case Quoted(t) => "\"" + Escape(t) + "\""
  }

  function EncodeAll(fs: seq<Field>): (r: seq<string>)
    ensures |r| == |fs|
  {
    if fs == [] then [] else [Encode(fs[0])] + EncodeAll(fs[1..])
  }

  function Texts(fs: seq<Field>): (r: seq<string>)
    ensures |r| == |fs|
  {
    if fs == [] then [] else [fs[0].text] + Texts(fs[1..])
  }

  lemma {:induction false} UnescapeEscape(t: string)
    ensures Unescape(Escape(t)) == t
  {
    if t != [] {
      UnescapeEscape(t[1..]);
      if t[0] == '"' {
        assert Escape(t) == "\"\"" + Escape(t[1..]);
        assert (Escape(t))[2..] == Escape(t[1..]);
      } else {
        assert Escape(t) == [t[0]] + Escape(t[1..]);
        assert (Escape(t))[1..] == Escape(t[1..]);
      }
      assert t == [t[0]] + t[1..];
    }
  }

  lemma {:induction false} PlainEndOf(s: string, q: nat, p: string, tail: string)
    requires q <= |s| && s[q..] == p + tail && ',' !in p
    requires tail == [] || tail[0] == ','
    ensures PlainEnd(s, q) == q + |p|
    decreases |p|
  {
    if p == [] {
      assert s[q..] == tail;
      if tail != [] {
        assert s[q] == tail[0];
      }
    } else {
      assert s[q] == p[0];
      assert s[q + 1..] == s[q..][1..];
      assert (p + tail)[1..] == p[1..] + tail;
      PlainEndOf(s, q + 1, p[1..], tail);
    }
  }

  /**
   * The escaped text `t` and its closing quote are written at `j`, character by character,
   * and the closing quote is followed by a comma or by the end of the line.
   */
  ghost predicate EscapedAt(s: string, j: nat, t: string)
    decreases |t|
  {
    if t == [] then j < |s| && s[j] == '"' && (j + 1 == |s| || s[j + 1] == ',')
    else if t[0] == '"' then j + 1 < |s| && s[j] == '"' && s[j + 1] == '"' && EscapedAt(s, j + 2, t[1..])
    else j < |s| && s[j] == t[0] && EscapedAt(s, j + 1, t[1..])
  }

  lemma {:induction false} EscapedAtOf(s: string, j: nat, t: string, tail: string)
    requires j <= |s| && s[j..] == Escape(t) + ("\"" + tail)
    requires tail == [] || tail[0] == ','
    ensures EscapedAt(s, j, t)
    decreases |t|
  {
    if t == [] {
      SuffixSplit(s, j, "\"", tail);
      assert s[j] == s[j..j + 1][0];
      if tail != [] {
        assert s[j + 1] == tail[0];
      }
    } else if t[0] == '"' {
      EscapedPairAt(s, j, t, tail);
      EscapedAtOf(s, j + 2, t[1..], tail);
    } else {
      EscapedCharAt(s, j, t, tail);
      EscapedAtOf(s, j + 1, t[1..], tail);
    }
  }

  /** An escaped text written behind the opening quote is matched up to its closing quote. */
  lemma {:induction false} QuotedEndOf(s: string, j: nat, t: string, lastPair: Option<nat>)
    requires j <= |s| && EscapedAt(s, j, t)
    requires lastPair.Some? ==> lastPair.value + 2 <= j && s[lastPair.value] == '"'
    ensures QuotedEnd(s, j, lastPair) == Some(j + |Escape(t)| + 1)
    decreases |t|
  {
    if t == [] {
      QuotedEndCloses(s, j, lastPair);
    } else if t[0] == '"' {
      QuotedEndOf(s, j + 2, t[1..], Some(j));
      QuotedEndPairStep(s, j, t, lastPair);
    } else {
      QuotedEndOf(s, j + 1, t[1..], lastPair);
      QuotedEndCharStep(s, j, t, lastPair);
    }
  }

  lemma QuotedEndPairStep(s: string, j: nat, t: string, lastPair: Option<nat>)
    requires j + 1 < |s| && s[j] == '"' && s[j + 1] == '"' && t != [] && t[0] == '"'
    requires lastPair.Some? ==> lastPair.value + 2 <= j && s[lastPair.value] == '"'
    requires QuotedEnd(s, j + 2, Some(j)) == Some(j + 2 + |Escape(t[1..])| + 1)
    ensures QuotedEnd(s, j, lastPair) == Some(j + |Escape(t)| + 1)
  {
    QuotedEndSkipsPair(s, j, lastPair);
    assert Escape(t) == "\"\"" + Escape(t[1..]);
  }

  lemma QuotedEndCharStep(s: string, j: nat, t: string, lastPair: Option<nat>)
    requires j < |s| && t != [] && s[j] == t[0] && t[0] != '"'
    requires lastPair.Some? ==> lastPair.value + 2 <= j && s[lastPair.value] == '"'
    requires QuotedEnd(s, j + 1, lastPair) == Some(j + 1 + |Escape(t[1..])| + 1)
    ensures QuotedEnd(s, j, lastPair) == Some(j + |Escape(t)| + 1)
  {
    QuotedEndSkipsChar(s, j, lastPair);
    assert Escape(t) == [t[0]] + Escape(t[1..]);
  }

  /** An escaped quote is a doubled quote. */
  lemma EscapedPairAt(s: string, j: nat, t: string, tail: string)
    requires j <= |s| && s[j..] == Escape(t) + ("\"" + tail)
    requires t != [] && t[0] == '"'
    ensures j + 2 <= |s| && s[j] == '"' && s[j + 1] == '"'
    ensures s[j + 2..] == Escape(t[1..]) + ("\"" + tail) && |Escape(t)| == 2 + |Escape(t[1..])|
  {
    var rest := Escape(t[1..]);
    assert Escape(t) == "\"\"" + rest;
    AppendAssoc("\"\"", rest, "\"" + tail);
    SuffixSplit(s, j, "\"\"", rest + ("\"" + tail));
    assert s[j..j + 2] == "\"\"";
    assert s[j] == s[j..j + 2][0] && s[j + 1] == s[j..j + 2][1];
  }

  /** Any other character is written as it is. */
  lemma EscapedCharAt(s: string, j: nat, t: string, tail: string)
    requires j <= |s| && s[j..] == Escape(t) + ("\"" + tail)
    requires t != [] && t[0] != '"'
    ensures j + 1 <= |s| && s[j] == t[0]
    ensures s[j + 1..] == Escape(t[1..]) + ("\"" + tail) && |Escape(t)| == 1 + |Escape(t[1..])|
  {
    var rest := Escape(t[1..]);
    assert Escape(t) == [t[0]] + rest;
    AppendAssoc([t[0]], rest, "\"" + tail);
    SuffixSplit(s, j, [t[0]], rest + ("\"" + tail));
    assert s[j] == s[j..j + 1][0];
  }

  lemma QuotedEndCloses(s: string, j: nat, lastPair: Option<nat>)
    requires j < |s| && s[j] == '"' && (j + 1 == |s| || s[j + 1] != '"')
    requires lastPair.Some? ==> lastPair.value + 2 <= j && s[lastPair.value] == '"'
    ensures QuotedEnd(s, j, lastPair) == Some(j + 1)
  {
  }

  lemma QuotedEndSkipsPair(s: string, j: nat, lastPair: Option<nat>)
    requires j + 1 < |s| && s[j] == '"' && s[j + 1] == '"'
    requires lastPair.Some? ==> lastPair.value + 2 <= j && s[lastPair.value] == '"'
    ensures QuotedEnd(s, j, lastPair) == QuotedEnd(s, j + 2, Some(j))
  {
  }

  lemma QuotedEndSkipsChar(s: string, j: nat, lastPair: Option<nat>)
    requires j < |s| && s[j] != '"'
    requires lastPair.Some? ==> lastPair.value + 2 <= j && s[lastPair.value] == '"'
    ensures QuotedEnd(s, j, lastPair) == QuotedEnd(s, j + 1, lastPair)
  {
  }

  /** A well-formed field written at `q` and followed by a comma or the end is read back whole. */
  lemma FieldEndOf(s: string, q: nat, f: Field, tail: string)
    requires WellFormed(f)
    requires q <= |s| && s[q..] == Encode(f) + tail
    requires tail == [] || tail[0] == ','
    ensures FieldEnd(s, q) == q + |Encode(f)|
    ensures s[q..q + |Encode(f)|] == Encode(f) && s[q + |Encode(f)|..] == tail
  {
    SuffixSplit(s, q, Encode(f), tail);
    match f
    case Plain(p) => PlainFieldEnd(s, q, p, tail);
    case Quoted(t) => QuotedFieldEnd(s, q, t, tail);
  }

  lemma PlainFieldEnd(s: string, q: nat, p: string, tail: string)
    requires ',' !in p && (p == [] || p[0] != '"')
    requires q <= |s| && s[q..] == p + tail
    requires tail == [] || tail[0] == ','
    ensures FieldEnd(s, q) == q + |p|
  {
    if p != [] {
      assert s[q] == s[q..][0] == p[0];
    } else if tail != [] {
      assert s[q] == s[q..][0] == tail[0];
    }
    PlainEndOf(s, q, p, tail);
  }

  lemma QuotedFieldEnd(s: string, q: nat, t: string, tail: string)
    requires q <= |s| && s[q..] == Encode(Quoted(t)) + tail
    requires tail == [] || tail[0] == ','
    ensures FieldEnd(s, q) == q + |Encode(Quoted(t))|
  {
    var enc := Encode(Quoted(t));
    assert s[q] == s[q..][0] == '"';
    assert s[q + 1..] == s[q..][1..];
    assert (enc + tail)[1..] == Escape(t) + ("\"" + tail);
    EscapedAtOf(s, q + 1, t, tail);
    QuotedEndOf(s, q + 1, t, None);
  }

  lemma CleanEncoded(f: Field)
    requires WellFormed(f)
    ensures CleanField(Encode(f)) == f.text
    ensures CleanField([','] + Encode(f)) == f.text
  {
    assert ([','] + Encode(f))[1..] == Encode(f);
    if f.Quoted? {
      var g := Encode(f);
      assert g[1..|g| - 1] == Escape(f.text);
      UnescapeEscape(f.text);
    }
  }

  /** At a comma, the comma matches are the match running to the end of its field, then the rest. */
  lemma CommaMatchesAtComma(s: string, from: nat, e: nat, m: string)
    requires from < |s| && s[from] == ','
    requires FieldEnd(s, from + 1) == e && s[from..e] == m
    ensures CommaMatches(s, from) == [m] + CommaMatches(s, e)
  {
  }

  /** The fields after the first, each written out behind its separating comma. */
  function CommaLine(fs: seq<Field>): string {
    if fs == [] then [] else [','] + (Encode(fs[0]) + CommaLine(fs[1..]))
  }

  lemma {:induction false} CommaLineIsSeparated(fs: seq<Field>)
    ensures CommaLine(fs) == Separated(EncodeAll(fs), ',')
  {
    if fs != [] {
      assert EncodeAll(fs)[1..] == EncodeAll(fs[1..]);
      CommaLineIsSeparated(fs[1..]);
    }
  }

  /** Each field behind its separating comma, as the matches of the global search read it. */
  function CommaEncoded(fs: seq<Field>): (r: seq<string>)
    ensures |r| == |fs|
    ensures forall k :: 0 <= k < |r| ==> r[k] == [','] + Encode(fs[k])
  {
    if fs == [] then [] else [[','] + Encode(fs[0])] + CommaEncoded(fs[1..])
  }

  /** The pieces of `ms` written one after another. */
  function Flatten(ms: seq<string>): (r: string)
    ensures |ms| == 0 ==> r == []
  {
    if ms == [] then [] else ms[0] + Flatten(ms[1..])
  }

  lemma {:induction false} CommaLineFlat(fs: seq<Field>)
    ensures CommaLine(fs) == Flatten(CommaEncoded(fs))
  {
    if fs != [] {
      var ms := CommaEncoded(fs);
      assert ms[1..] == CommaEncoded(fs[1..]);
      CommaLineFlat(fs[1..]);
      AppendAssoc([','], Encode(fs[0]), CommaLine(fs[1..]));
    }
  }

  predicate CommaLed(m: string) {
    |m| > 0 && m[0] == ','
  }

  /**
   * `ms` lies in `s` from `from` onwards, one piece after another up to the end of
   * the line, each starting with a comma.
   */
  ghost predicate Laid(s: string, from: nat, ms: seq<string>)
    decreases |ms|
  {
    if ms == [] then from == |s|
    else
      from < |s| && s[from] == ',' && from + |ms[0]| <= |s|
      && s[from..from + |ms[0]|] == ms[0] && Laid(s, from + |ms[0]|, ms[1..])
  }

  /** Read from `from` onwards, each piece of `ms` ends where the field behind its comma ends. */
  ghost predicate Ended(s: string, from: nat, ms: seq<string>)
    decreases |ms|
  {
    ms == [] || (from < |s| && FieldEnd(s, from + 1) == from + |ms[0]| && Ended(s, from + |ms[0]|, ms[1..]))
  }

  /** Pieces laid out and ended at field ends are exactly what the comma search finds. */
  lemma {:induction false} LaidMatches(s: string, from: nat, ms: seq<string>)
    requires from <= |s| && Laid(s, from, ms) && Ended(s, from, ms)
    ensures CommaMatches(s, from) == ms
    decreases |ms|
  {
    if ms != [] {
      CommaMatchesAtComma(s, from, from + |ms[0]|, ms[0]);
      LaidMatches(s, from + |ms[0]|, ms[1..]);
    }
  }

  /** Comma-led pieces written out from `from` to the end of the line are laid out there. */
  lemma {:induction false} FlattenLaid(s: string, from: nat, ms: seq<string>)
    requires from <= |s| && s[from..] == Flatten(ms)
    requires forall k :: 0 <= k < |ms| ==> CommaLed(ms[k])
    ensures Laid(s, from, ms)
    decreases |ms|
  {
    if ms == [] {
      assert |s[from..]| == 0;
    } else {
      var m := ms[0];
      assert CommaLed(m);
      SuffixSplit(s, from, m, Flatten(ms[1..]));
      assert s[from] == s[from..from + |m|][0];
      FlattenLaid(s, from + |m|, ms[1..]);
      LaidStep(s, from, ms);
    }
  }

  lemma LaidStep(s: string, from: nat, ms: seq<string>)
    requires ms != [] && from < |s| && s[from] == ',' && from + |ms[0]| <= |s|
    requires s[from..from + |ms[0]|] == ms[0] && Laid(s, from + |ms[0]|, ms[1..])
    ensures Laid(s, from, ms)
  {
  }

  /** Laid-out pieces are followed by a comma or by the end of the line. */
  lemma LaidNext(s: string, from: nat, ms: seq<string>)
    requires from <= |s| && Laid(s, from, ms)
    ensures from == |s| || s[from] == ','
  {
  }

  /** At `p`: a comma, then the encoding of the well-formed field `f`, then a comma or the end of the line. */
  ghost predicate LocalPiece(s: string, p: nat, f: Field) {
    && WellFormed(f)
    && p + 1 + |Encode(f)| <= |s| && s[p..p + 1 + |Encode(f)|] == [','] + Encode(f)
    && (p + 1 + |Encode(f)| == |s| || s[p + 1 + |Encode(f)|] == ',')
  }

  /** A well-formed field behind a comma, followed by a comma or the end, ends where its encoding ends. */
  lemma PieceEnd(s: string, from: nat, f: Field)
    requires LocalPiece(s, from, f)
    ensures FieldEnd(s, from + 1) == from + 1 + |Encode(f)|
  {
    var enc := Encode(f);
    var e := from + 1 + |enc|;
    var tail := s[e..];
    assert s[from + 1..e] == s[from..e][1..];
    assert s[from + 1..] == s[from + 1..e] + tail;
    assert tail != [] ==> tail[0] == s[e];
    FieldEndOf(s, from + 1, f, tail);
  }

  /** On a laid-out comma-led line of well-formed fields, each field behind its comma ends at a field end. */
  lemma CommaLineEnded(s: string, from: nat, fs: seq<Field>)
    requires from <= |s| && Laid(s, from, CommaEncoded(fs))
    requires forall i :: 0 <= i < |fs| ==> WellFormed(fs[i])
    ensures Ended(s, from, CommaEncoded(fs))
  {
    var ms := CommaEncoded(fs);
    var ps := Starts(from, ms);
    LaidSlices(s, from, ms);
    PiecesEnd(s, ps, ms, fs);
    StartsEnded(s, ps, ms);
  }

  /** Where each of the pieces `ms`, written from `from` on, starts; the last entry is where they end. */
  function Starts(from: nat, ms: seq<string>): (ps: seq<nat>)
    ensures |ps| == |ms| + 1 && ps[0] == from
    ensures forall k :: 0 <= k < |ms| ==> ps[k + 1] == ps[k] + |ms[k]|
    decreases |ms|
  {
    if ms == [] then [from] else [from] + Starts(from + |ms[0]|, ms[1..])
  }

  lemma StartsTail(from: nat, ms: seq<string>)
    requires ms != []
    ensures Starts(from, ms)[1..] == Starts(from + |ms[0]|, ms[1..])
  {
  }

  /** At `p` the line holds `m`, followed by a comma or the end of the line. */
  ghost predicate SliceAt(s: string, p: nat, m: string) {
    p + |m| <= |s| && s[p..p + |m|] == m && (p + |m| == |s| || s[p + |m|] == ',')
  }

  /** Each laid-out piece sits at its start, followed by a comma or the end. */
  lemma {:induction false} LaidSlices(s: string, from: nat, ms: seq<string>)
    requires from <= |s| && Laid(s, from, ms)
    ensures forall k :: 0 <= k < |ms| ==> SliceAt(s, Starts(from, ms)[k], ms[k])
    decreases |ms|
  {
    if ms != [] {
      var next := from + |ms[0]|;
      LaidNext(s, next, ms[1..]);
      assert SliceAt(s, from, ms[0]);
      LaidSlices(s, next, ms[1..]);
      StartsTail(from, ms);
      forall k | 1 <= k < |ms| ensures SliceAt(s, Starts(from, ms)[k], ms[k]) {
        assert ms[k] == ms[1..][k - 1];
        assert Starts(from, ms)[k] == Starts(from, ms)[1..][k - 1];
      }
    }
  }

  /** A piece that is a comma and `e` sits at `p` as the comma, `e`, and then a comma or the end. */
  lemma SliceParts(s: string, p: nat, m: string, e: string)
    requires SliceAt(s, p, m) && m == [','] + e
    ensures p + 1 + |e| <= |s| && s[p..p + 1 + |e|] == [','] + e
    ensures p + 1 + |e| == |s| || s[p + 1 + |e|] == ','
  {
  }

  /** A comma-led well-formed field sitting at `p` ends where its piece ends. */
  lemma PieceAt(s: string, p: nat, m: string, f: Field)
    requires SliceAt(s, p, m) && WellFormed(f) && m == [','] + Encode(f)
    ensures p < |s| && FieldEnd(s, p + 1) == p + |m|
  {
    SliceParts(s, p, m, Encode(f));
    PieceEnd(s, p, f);
  }

  /** Each comma-led well-formed field sitting at its start ends where its piece ends. */
  lemma PiecesEnd(s: string, ps: seq<nat>, ms: seq<string>, fs: seq<Field>)
    requires |ps| == |ms| + 1 && |fs| == |ms|
    requires forall k :: 0 <= k < |ms| ==> SliceAt(s, ps[k], ms[k])
    requires forall k :: 0 <= k < |ms| ==> WellFormed(fs[k]) && ms[k] == [','] + Encode(fs[k])
    ensures forall k :: 0 <= k < |ms| ==> ps[k] < |s| && FieldEnd(s, ps[k] + 1) == ps[k] + |ms[k]|
  {
    forall k | 0 <= k < |ms| ensures ps[k] < |s| && FieldEnd(s, ps[k] + 1) == ps[k] + |ms[k]| {
      PieceAt(s, ps[k], ms[k], fs[k]);
    }
  }

  /** Pieces that start at `ps`, each followed by a field ending where the piece ends, are ended. */
  lemma {:induction false} StartsEnded(s: string, ps: seq<nat>, ms: seq<string>)
    requires |ps| == |ms| + 1
    requires forall k :: 0 <= k < |ms| ==> ps[k + 1] == ps[k] + |ms[k]|
    requires forall k :: 0 <= k < |ms| ==> ps[k] < |s| && FieldEnd(s, ps[k] + 1) == ps[k] + |ms[k]|
    ensures Ended(s, ps[0], ms)
    decreases |ms|
  {
    if ms != [] {
      var rest := ps[1..];
      assert forall k :: 0 <= k < |ms[1..]| ==> rest[k] == ps[k + 1] && ms[1..][k] == ms[k + 1];
      StartsEnded(s, rest, ms[1..]);
      EndedStep(s, ps[0], ms);
    }
  }

  lemma EndedStep(s: string, from: nat, ms: seq<string>)
    requires ms != [] && from < |s| && FieldEnd(s, from + 1) == from + |ms[0]|
    requires Ended(s, from + |ms[0]|, ms[1..])
    ensures Ended(s, from, ms)
  {
  }

  /** On a comma-led line, the comma matches are exactly the fields behind their commas. */
  lemma CommaMatchesOfCommaLine(s: string, from: nat, fs: seq<Field>)
    requires from <= |s| && s[from..] == CommaLine(fs)
    requires forall i :: 0 <= i < |fs| ==> WellFormed(fs[i])
    ensures CommaMatches(s, from) == CommaEncoded(fs)
  {
    var ms := CommaEncoded(fs);
    CommaLineFlat(fs);
    assert forall k :: 0 <= k < |ms| ==> CommaLed(ms[k]);
    FlattenLaid(s, from, ms);
    CommaLineEnded(s, from, fs);
    LaidMatches(s, from, ms);
  }

  /** Cleaning the comma matches of well-formed fields gives back their texts. */
  lemma {:induction false} CleanCommaEncoded(fs: seq<Field>)
    requires forall i :: 0 <= i < |fs| ==> WellFormed(fs[i])
    ensures CleanAll(CommaEncoded(fs)) == Texts(fs)
  {
    if fs != [] {
      assert WellFormed(fs[0]);
      CleanEncoded(fs[0]);
      CleanAllCons([','] + Encode(fs[0]), CommaEncoded(fs[1..]));
      CleanCommaEncoded(fs[1..]);
    }
  }

  /** Writing well-formed fields out as one CSV line and parsing it gives their texts back. */
  lemma RoundTrip(fs: seq<Field>)
    requires |fs| >= 1
    requires forall i :: 0 <= i < |fs| ==> WellFormed(fs[i])
    ensures ParseCsvLineFixed(Join(EncodeAll(fs), ',')) == Texts(fs)
  {
    var s := Join(EncodeAll(fs), ',');
    assert EncodeAll(fs)[1..] == EncodeAll(fs[1..]);
    CommaLineIsSeparated(fs[1..]);
    assert s == Encode(fs[0]) + CommaLine(fs[1..]);
    ParseFixedOf(s, fs[0], fs[1..]);
  }

  /** A line made of one well-formed field and then comma-led well-formed fields is read back field by field. */
  lemma ParseFixedOf(s: string, f: Field, fs: seq<Field>)
    requires WellFormed(f) && forall i :: 0 <= i < |fs| ==> WellFormed(fs[i])
    requires s == Encode(f) + CommaLine(fs)
    ensures ParseCsvLineFixed(s) == [f.text] + Texts(fs)
  {
    var enc, tail := Encode(f), CommaLine(fs);
    assert s[0..] == enc + tail;
    assert tail == [] || tail[0] == ',';
    FieldEndOf(s, 0, f, tail);
    CommaMatchesOfCommaLine(s, |enc|, fs);
    CleanCommaEncoded(fs);
    CleanEncoded(f);
    var first, rest := s[..|enc|], CommaMatches(s, |enc|);
    assert first == enc;
    CleanAllCons(first, rest);
  }

  function PlainAll(ps: seq<string>): (r: seq<Field>)
    ensures |r| == |ps|
    ensures forall i :: 0 <= i < |ps| ==> r[i] == Plain(ps[i])
  {
    if ps == [] then [] else [Plain(ps[0])] + PlainAll(ps[1..])
  }

  lemma {:induction false} PlainAllTexts(ps: seq<string>)
    ensures EncodeAll(PlainAll(ps)) == ps && Texts(PlainAll(ps)) == ps
  {
    if ps != [] {
      assert PlainAll(ps)[1..] == PlainAll(ps[1..]);
      PlainAllTexts(ps[1..]);
    }
  }

  /** A line without quotes is split at every comma. */
  lemma UnquotedLineSplitsAtCommas(line: string)
    requires '"' !in line
    ensures ParseCsvLineFixed(line) == Split(line, ',')
  {
    var ps := Split(line, ',');
    var fs := PlainAll(ps);
    forall i | 0 <= i < |fs|
      ensures WellFormed(fs[i])
    {
      if ps[i] != [] {
        assert ps[i][0] in ps[i];
      }
    }
    PlainAllTexts(ps);
    RoundTrip(fs);
  }

  /** The same holds for the parser as written, when the line does not start with a comma. */
  lemma AsWrittenUnquotedLineSplitsAtCommas(line: string)
    requires '"' !in line && (line == [] || line[0] != ',')
    ensures ParseCsvLine(line) == Split(line, ',')
  {
    AsWrittenAgreesWithoutLeadingComma(line);
    UnquotedLineSplitsAtCommas(line);
  }
}
