/** String helpers with the meaning JavaScript gives them: `split` on one character, `trim`. */
module Text {

  /** `parts` joined with `sep` between neighbours: the inverse of Split. */
  function Join(parts: seq<string>, sep: char): string
    requires |parts| >= 1
  {
    parts[0] + Separated(parts[1..], sep)
  }

  /** Each of `parts` preceded by `sep`. */
  function Separated(parts: seq<string>, sep: char): string {
    if parts == [] then [] else [sep] + parts[0] + Separated(parts[1..], sep)
  }

  function Count(s: string, c: char): nat {
    if s == [] then 0 else (if s[0] == c then 1 else 0) + Count(s[1..], c)
  }

  lemma {:induction false} CountConcat(a: string, b: string, c: char)
    ensures Count(a + b, c) == Count(a, c) + Count(b, c)
  {
    if a == [] {
      assert a + b == b;
    } else {
      assert (a + b)[1..] == a[1..] + b;
      CountConcat(a[1..], b, c);
    }
  }

  lemma {:induction false} CountAbsent(s: string, c: char)
    requires c !in s
    ensures Count(s, c) == 0
  {
    if s != [] {
      CountAbsent(s[1..], c);
    }
  }

  /** The position of the first `c` in `s`. */
  function IndexOf(s: string, c: char): (i: nat)
    requires c in s
    ensures i < |s| && s[i] == c && c !in s[..i]
  {
    if s[0] == c then 0 else 1 + IndexOf(s[1..], c)
  }

  /**
   * `s.split(sep)`: the pieces between the separators, in order. There is always one more
   * piece than separators, no piece holds the separator, and joining them gives `s` back.
   */
  function Split(s: string, sep: char): (r: seq<string>)
    ensures |r| == Count(s, sep) + 1
    ensures forall i :: 0 <= i < |r| ==> sep !in r[i]
    ensures forall i, c :: 0 <= i < |r| && c in r[i] ==> c in s
    ensures Join(r, sep) == s
    decreases |s|
  {
    if sep !in s then
      CountAbsent(s, sep);
      [s]
    else
      var i := IndexOf(s, sep);
      var rest := Split(s[i + 1..], sep);
      SplitCount(s, i, sep);
      SplitPieces(s, i, sep, rest);
      SplitJoin(s, i, sep, rest);
      [s[..i]] + rest
  }

  /** The piece before the first separator holds no separator and only characters of `s`. */
  lemma SplitPieces(s: string, i: nat, sep: char, rest: seq<string>)
    requires i < |s| && sep !in s[..i]
    requires forall k :: 0 <= k < |rest| ==> sep !in rest[k]
    requires forall k, c :: 0 <= k < |rest| && c in rest[k] ==> c in s[i + 1..]
    ensures forall k :: 0 <= k < |[s[..i]] + rest| ==> sep !in ([s[..i]] + rest)[k]
    ensures forall k, c :: 0 <= k < |[s[..i]] + rest| && c in ([s[..i]] + rest)[k] ==> c in s
  {
    var r := [s[..i]] + rest;
    forall k, c | 0 <= k < |r| && c in r[k]
      ensures c in s
    {
      if k == 0 {
        assert c in s[..i];
      } else {
        assert r[k] == rest[k - 1];
        assert c in s[i + 1..];
      }
    }
  }

  /** The first piece, the separator and the join of the remaining pieces make up `s`. */
  lemma SplitJoin(s: string, i: nat, sep: char, rest: seq<string>)
    requires i < |s| && s[i] == sep && |rest| >= 1
    requires Join(rest, sep) == s[i + 1..]
    ensures Join([s[..i]] + rest, sep) == s
  {
    var r := [s[..i]] + rest;
    assert r[1..] == rest;
    calc {
      Join(r, sep);
      s[..i] + Separated(rest, sep);
      s[..i] + ([sep] + rest[0] + Separated(rest[1..], sep));
      { assert [sep] + rest[0] + Separated(rest[1..], sep) == [sep] + Join(rest, sep); }
      s[..i] + ([sep] + s[i + 1..]);
      { assert s == s[..i] + ([sep] + s[i + 1..]); }
      s;
    }
  }

  lemma SplitCount(s: string, i: nat, sep: char)
    requires i < |s| && s[i] == sep && sep !in s[..i]
    ensures Count(s, sep) == Count(s[i + 1..], sep) + 1
  {
    assert s == s[..i] + ([sep] + s[i + 1..]);
    CountConcat(s[..i], [sep] + s[i + 1..], sep);
    CountAbsent(s[..i], sep);
    assert ([sep] + s[i + 1..])[1..] == s[i + 1..];
  }

  // ---------------------------------------------------------------------------
  // String.prototype.trim

  /** The characters `trim` removes: ECMAScript's WhiteSpace and LineTerminator. */
  predicate IsJsSpace(c: char) {
    c == '\t' || c == '\n' || c == '\U{000B}' || c == '\U{000C}' || c == '\r' || c == ' '
    || c == '\U{00A0}' || c == '\U{1680}' || ('\U{2000}' <= c <= '\U{200A}')
    || c == '\U{2028}' || c == '\U{2029}' || c == '\U{202F}' || c == '\U{205F}'
    || c == '\U{3000}' || c == '\U{FEFF}'
  }

  predicate AllSpace(s: string) {
    forall i :: 0 <= i < |s| ==> IsJsSpace(s[i])
  }

  function TrimStart(s: string): (r: string)
    ensures |r| <= |s| && r == s[|s| - |r|..] && AllSpace(s[..|s| - |r|])
    ensures r == [] || !IsJsSpace(r[0])
  {
    if s != [] && IsJsSpace(s[0]) then
      var r := TrimStart(s[1..]);
      assert s[..|s| - |r|] == [s[0]] + s[1..][..|s| - 1 - |r|];
      r
    else s
  }

  function TrimEnd(s: string): (r: string)
    ensures |r| <= |s| && r == s[..|r|] && AllSpace(s[|r|..])
    ensures r == [] || !IsJsSpace(r[|r| - 1])
  {
    if s != [] && IsJsSpace(s[|s| - 1]) then
      var r := TrimEnd(s[..|s| - 1]);
      assert s[|r|..] == s[..|s| - 1][|r|..] + [s[|s| - 1]];
      r
    else s
  }

  /**
   * `s.trim()`: `s` with its leading and trailing white space removed. The result is a
   * slice of `s`, what was cut off is all white space, and the result neither starts nor
   * ends with white space.
   */
  function Trim(s: string): (r: string)
    ensures exists i, j :: 0 <= i <= j <= |s| && r == s[i..j] && AllSpace(s[..i]) && AllSpace(s[j..])
    ensures r == [] || (!IsJsSpace(r[0]) && !IsJsSpace(r[|r| - 1]))
  {
    var t := TrimStart(s);
    var r := TrimEnd(t);
    SliceOfSuffix(s, |s| - |t|, t, r);
    r
  }

  /** A prefix `r` of the suffix `t` of `s` starting at `i` is a slice of `s`, and what follows it is the rest of `t`. */
  lemma SliceOfSuffix<T>(s: seq<T>, i: nat, t: seq<T>, r: seq<T>)
    requires i <= |s| && t == s[i..] && |r| <= |t| && r == t[..|r|]
    ensures i + |r| <= |s| && r == s[i..i + |r|] && s[i + |r|..] == t[|r|..]
  {
  }

  /** A suffix of `s` that reads `x + y`: `x` sits at `a` and `y` follows it. */
  lemma SuffixSplit<T>(s: seq<T>, a: nat, x: seq<T>, y: seq<T>)
    requires a <= |s| && s[a..] == x + y
    ensures a + |x| <= |s| && s[a..a + |x|] == x && s[a + |x|..] == y
  {
    assert s[a..a + |x|] == s[a..][..|x|];
    assert s[a + |x|..] == s[a..][|x|..];
  }

  lemma AppendAssoc<T>(a: seq<T>, b: seq<T>, c: seq<T>)
    ensures (a + b) + c == a + (b + c)
  {
  }
}
