/**
 * String operations the source uses, over `seq<char>`: ASCII case mapping
 * (standing in for `toLowerCase`/`toUpperCase`), ECMAScript whitespace and
 * `trim`, `startsWith`/`endsWith`, `includes`/`indexOf`, replacing the first
 * occurrence of a literal, and splitting on one character.
 */
module Strings {
  import opened Wrappers

  predicate IsAsciiUpper(c: char) { 'A' <= c <= 'Z' }
  predicate IsAsciiLower(c: char) { 'a' <= c <= 'z' }
  predicate IsDigit(c: char) { '0' <= c <= '9' }

  /** The regular-expression word characters `[A-Za-z0-9_]` (`\w` without the `u` flag). */
  predicate IsWordChar(c: char) {
    IsAsciiUpper(c) || IsAsciiLower(c) || IsDigit(c) || c == '_'
  }

  function LowerChar(c: char): char {
    if IsAsciiUpper(c) then (c as int - 'A' as int + 'a' as int) as char else c
  }

  function UpperChar(c: char): char {
    if IsAsciiLower(c) then (c as int - 'a' as int + 'A' as int) as char else c
  }

  function ToLower(s: string): (r: string)
    ensures |r| == |s|
    ensures forall i :: 0 <= i < |s| ==> r[i] == LowerChar(s[i]) && !IsAsciiUpper(r[i])
  {
    seq(|s|, i requires 0 <= i < |s| => LowerChar(s[i]))
  }

  function ToUpper(s: string): (r: string)
    ensures |r| == |s|
    ensures forall i :: 0 <= i < |s| ==> r[i] == UpperChar(s[i]) && !IsAsciiLower(r[i])
  {
    seq(|s|, i requires 0 <= i < |s| => UpperChar(s[i]))
  }

  lemma ToUpperIdempotent(s: string)
    ensures ToUpper(ToUpper(s)) == ToUpper(s)
  {
  }

  /**
   * ECMAScript WhiteSpace and LineTerminator code points: what `trim`
   * removes and what `\s` matches.
   */
  predicate IsWhitespace(c: char) {
    c == ' ' || c == '\t' || c == '\n' || c == '\r' || c == '\U{000B}' || c == '\U{000C}'
    || c == '\U{00A0}' || c == '\U{1680}' || ('\U{2000}' <= c <= '\U{200A}')
    || c == '\U{2028}' || c == '\U{2029}' || c == '\U{202F}' || c == '\U{205F}'
    || c == '\U{3000}' || c == '\U{FEFF}'
  }

  predicate AllWhitespace(s: string) {
    forall i :: 0 <= i < |s| ==> IsWhitespace(s[i])
  }

  /** `trim`: `s` without its leading and trailing whitespace. */
  function Trim(s: string): (r: string)
    ensures |r| <= |s|
    ensures r == [] || (!IsWhitespace(r[0]) && !IsWhitespace(r[|r| - 1]))
  {
    if s != [] && IsWhitespace(s[0]) then Trim(s[1..])
    else if s != [] && IsWhitespace(s[|s| - 1]) then Trim(s[..|s| - 1])
    else s
  }

  /** `trim` cuts away whitespace only: `s` is the trimmed string padded with whitespace. */
  lemma {:induction false} TrimSplit(s: string) returns (pre: string, post: string)
    ensures s == pre + Trim(s) + post
    ensures AllWhitespace(pre) && AllWhitespace(post)
    decreases |s|
  {
    if s != [] && IsWhitespace(s[0]) {
      var p, q := TrimSplit(s[1..]);
      pre, post := TrimSplitFront(s, p, q);
    } else if s != [] && IsWhitespace(s[|s| - 1]) {
      var p, q := TrimSplit(s[..|s| - 1]);
      pre, post := TrimSplitBack(s, p, q);
    } else {
      pre, post := [], [];
      assert s == [] + s + [];
    }
  }

  lemma TrimSplitFront(s: string, p: string, q: string) returns (pre: string, post: string)
    requires s != [] && IsWhitespace(s[0])
    requires s[1..] == p + Trim(s[1..]) + q && AllWhitespace(p) && AllWhitespace(q)
    ensures s == pre + Trim(s) + post
    ensures AllWhitespace(pre) && AllWhitespace(post)
  {
    pre, post := [s[0]] + p, q;
    assert Trim(s) == Trim(s[1..]);
    WhitespaceConcat([s[0]], p);
    PrependThree([s[0]], s[1..], p, Trim(s), q);
    assert s == [s[0]] + s[1..];
  }

  lemma TrimSplitBack(s: string, p: string, q: string) returns (pre: string, post: string)
    requires s != [] && !IsWhitespace(s[0]) && IsWhitespace(s[|s| - 1])
    requires s[..|s| - 1] == p + Trim(s[..|s| - 1]) + q && AllWhitespace(p) && AllWhitespace(q)
    ensures s == pre + Trim(s) + post
    ensures AllWhitespace(pre) && AllWhitespace(post)
  {
    pre, post := p, q + [s[|s| - 1]];
    assert Trim(s) == Trim(s[..|s| - 1]);
    WhitespaceConcat(q, [s[|s| - 1]]);
    AppendThree(s[..|s| - 1], [s[|s| - 1]], p, Trim(s), q);
    assert s == s[..|s| - 1] + [s[|s| - 1]];
  }

  lemma WhitespaceConcat(a: string, b: string)
    requires AllWhitespace(a) && AllWhitespace(b)
    ensures AllWhitespace(a + b)
  {
    assert forall i :: 0 <= i < |a + b| ==> (a + b)[i] == if i < |a| then a[i] else b[i - |a|];
  }

  lemma PrependThree(c: string, t: string, p: string, m: string, q: string)
    requires t == p + m + q
    ensures c + t == (c + p) + m + q
  {
  }

  lemma AppendThree(t: string, c: string, p: string, m: string, q: string)
    requires t == p + m + q
    ensures t + c == p + m + (q + c)
  {
  }

  lemma TrimOfTrimmed(s: string)
    requires s == [] || (!IsWhitespace(s[0]) && !IsWhitespace(s[|s| - 1]))
    ensures Trim(s) == s
  {
  }

  lemma TrimIdempotent(s: string)
    ensures Trim(Trim(s)) == Trim(s)
  {
    TrimOfTrimmed(Trim(s));
  }

  lemma {:induction false} TrimWhitespace(s: string)
    requires AllWhitespace(s)
    ensures Trim(s) == []
    decreases |s|
  {
    if s != [] {
      TrimWhitespace(s[1..]);
    }
  }

  /** The trim is empty exactly when the string is all whitespace. */
  lemma TrimEmpty(s: string)
    ensures Trim(s) == [] <==> AllWhitespace(s)
  {
    if AllWhitespace(s) {
      TrimWhitespace(s);
    }
    if Trim(s) == [] {
      var pre, post := TrimSplit(s);
      assert s == pre + post;
      forall i | 0 <= i < |s| ensures IsWhitespace(s[i]) {
        if i < |pre| {
          assert s[i] == pre[i];
        } else {
          assert s[i] == post[i - |pre|];
        }
      }
    }
  }

  lemma {:induction false} TrimLeading(pre: string, s: string)
    requires AllWhitespace(pre)
    ensures Trim(pre + s) == Trim(s)
    decreases |pre|
  {
    if pre == [] {
      assert pre + s == s;
    } else {
      assert (pre + s)[0] == pre[0];
      assert (pre + s)[1..] == pre[1..] + s;
      TrimLeading(pre[1..], s);
    }
  }

  lemma {:induction false} TrimTrailing(s: string, post: string)
    requires AllWhitespace(post)
    ensures Trim(s + post) == Trim(s)
    decreases |s| + |post|
  {
    if s != [] && IsWhitespace(s[0]) {
      assert (s + post)[0] == s[0];
      assert (s + post)[1..] == s[1..] + post;
      TrimTrailing(s[1..], post);
    } else if s == [] {
      assert s + post == post;
      TrimWhitespace(post);
    } else if post != [] {
      var n := |s + post|;
      assert (s + post)[0] == s[0];
      assert (s + post)[n - 1] == post[|post| - 1];
      assert (s + post)[..n - 1] == s + post[..|post| - 1];
      TrimTrailing(s, post[..|post| - 1]);
    } else {
      assert s + post == s;
    }
  }

  /** Trimming ignores whitespace added at either end. */
  lemma TrimPadded(pre: string, s: string, post: string)
    requires AllWhitespace(pre) && AllWhitespace(post)
    ensures Trim(pre + s + post) == Trim(s)
  {
    assert pre + s + post == pre + (s + post);
    TrimLeading(pre, s + post);
    TrimTrailing(s, post);
  }

  /** Every character of the trim is a character of the string. */
  lemma TrimChars(s: string, c: char)
    requires c in Trim(s)
    ensures c in s
  {
    var pre, post := TrimSplit(s);
    var k :| 0 <= k < |Trim(s)| && Trim(s)[k] == c;
    assert s[|pre| + k] == c;
  }

  predicate StartsWith(s: string, prefix: string) {
    |prefix| <= |s| && s[..|prefix|] == prefix
  }

  predicate EndsWith(s: string, suffix: string) {
    |suffix| <= |s| && s[|s| - |suffix|..] == suffix
  }

  predicate OccursAt(s: string, pat: string, i: nat) {
    i + |pat| <= |s| && s[i..i + |pat|] == pat
  }

  /** `s.indexOf(pat)`: the first position where `pat` occurs, if any. */
  function IndexOf(s: string, pat: string): (r: Option<nat>)
    ensures r.Some? ==> OccursAt(s, pat, r.value)
    ensures r.Some? ==> forall i :: 0 <= i < r.value ==> !OccursAt(s, pat, i)
    ensures r.None? ==> forall i :: 0 <= i <= |s| ==> !OccursAt(s, pat, i)
  {
    IndexFrom(s, pat, 0)
  }

  function IndexFrom(s: string, pat: string, from: nat): (r: Option<nat>)
    ensures r.Some? ==> from <= r.value && OccursAt(s, pat, r.value)
    ensures r.Some? ==> forall i :: from <= i < r.value ==> !OccursAt(s, pat, i)
    ensures r.None? ==> forall i :: from <= i <= |s| ==> !OccursAt(s, pat, i)
    decreases |s| - from
  {
    if from + |pat| > |s| then None
    else if s[from..from + |pat|] == pat then Some(from)
    else IndexFrom(s, pat, from + 1)
  }

  /** `s.includes(pat)`. */
  predicate Contains(s: string, pat: string) {
    IndexOf(s, pat).Some?
  }

  lemma ContainsMeaning(s: string, pat: string)
    ensures Contains(s, pat) <==> exists i :: 0 <= i <= |s| && OccursAt(s, pat, i)
  {
    if Contains(s, pat) {
      assert OccursAt(s, pat, IndexOf(s, pat).value);
    }
  }

  /**
   * `s.replace(pat, rep)` with a string pattern: the first occurrence of `pat`
   * is replaced; without an occurrence `s` is returned unchanged.
   */
  function ReplaceFirst(s: string, pat: string, rep: string): (r: string)
    ensures IndexOf(s, pat).None? ==> r == s
    ensures IndexOf(s, pat).Some? ==>
      var i := IndexOf(s, pat).value; r == s[..i] + rep + s[i + |pat|..]
  {
    match IndexOf(s, pat)
    case None => s
    case Some(i) => s[..i] + rep + s[i + |pat|..]
  }

  /** `parts.join(sep)`. */
  function Join(parts: seq<string>, sep: string): string {
    if parts == [] then ""
    else if |parts| == 1 then parts[0]
    else parts[0] + sep + Join(parts[1..], sep)
  }

  lemma JoinCons(x: string, rest: seq<string>, sep: string)
    requires rest != []
    ensures Join([x] + rest, sep) == x + sep + Join(rest, sep)
  {
    assert ([x] + rest)[1..] == rest;
  }

  lemma {:induction false} JoinAppend(x: seq<string>, y: seq<string>, sep: string)
    requires x != [] && y != []
    ensures Join(x + y, sep) == Join(x, sep) + sep + Join(y, sep)
  {
    if |x| == 1 {
      JoinCons(x[0], y, sep);
    } else {
      assert (x + y)[1..] == x[1..] + y;
      JoinCons(x[0], x[1..] + y, sep);
      JoinAppend(x[1..], y, sep);
      JoinCons(x[0], x[1..], sep);
      assert [x[0]] + x[1..] == x;
      assert [x[0]] + (x[1..] + y) == x + y;
    }
  }

  /** `s.split(c)` for a one-character separator. */
  function Split(s: string, c: char): (r: seq<string>)
    ensures |r| >= 1
    ensures Join(r, [c]) == s
    ensures forall i :: 0 <= i < |r| ==> c !in r[i]
  {
    if s == [] then [""]
    else
      var rest := Split(s[1..], c);
      if s[0] == c then
        assert Join([""] + rest, [c]) == [c] + Join(rest, [c]) by {
          assert ([""] + rest)[1..] == rest;
        }
        [""] + rest
      else
        var r := [[s[0]] + rest[0]] + rest[1..];
        assert Join(r, [c]) == [s[0]] + Join(rest, [c]) by {
          if |rest| > 1 {
            assert r[1..] == rest[1..];
          }
        }
        r
  }

  /** Joining pieces that do not contain `c` and splitting on `c` gives the pieces back. */
  lemma {:induction false} SplitJoin(parts: seq<string>, c: char)
    requires |parts| >= 1
    requires forall i :: 0 <= i < |parts| ==> c !in parts[i]
    ensures Split(Join(parts, [c]), c) == parts
    decreases |parts|, |parts[0]|
  {
    var p := parts[0];
    if p == [] {
      if |parts| == 1 {
        assert Join(parts, [c]) == "";
      } else {
        var j := Join(parts[1..], [c]);
        assert Join(parts, [c]) == [c] + j;
        assert ([c] + j)[1..] == j;
        SplitJoin(parts[1..], c);
        assert parts == [""] + parts[1..];
      }
    } else {
      var s := Join(parts, [c]);
      var parts' := [p[1..]] + parts[1..];
      FirstCharOff(parts, c);
      SplitJoin(parts', c);
      SplitFirstChar(s, c);
      Regroup(parts);
    }
  }

  /** Splitting at a separator splits each side on its own: `(a + c + b).split(c)` is `a.split(c)` then `b.split(c)`. */
  lemma SplitAppend(a: string, b: string, c: char)
    ensures Split(a + [c] + b, c) == Split(a, c) + Split(b, c)
  {
    var pa, pb := Split(a, c), Split(b, c);
    JoinAppend(pa, pb, [c]);
    assert forall i :: 0 <= i < |pa + pb| ==> c !in (pa + pb)[i] by {
      forall i | 0 <= i < |pa + pb| ensures c !in (pa + pb)[i] {
        if i >= |pa| {
          assert (pa + pb)[i] == pb[i - |pa|];
        }
      }
    }
    SplitJoin(pa + pb, c);
  }

  /** Taking the first character off the first part takes it off the joined string. */
  lemma FirstCharOff(parts: seq<string>, c: char)
    requires |parts| >= 1 && parts[0] != []
    requires forall i :: 0 <= i < |parts| ==> c !in parts[i]
    ensures var parts' := [parts[0][1..]] + parts[1..];
      && |parts'| >= 1 && |parts'[0]| < |parts[0]| && |parts'| == |parts|
      && (forall i :: 0 <= i < |parts'| ==> c !in parts'[i])
      && Join(parts', [c]) == Join(parts, [c])[1..]
      && Join(parts, [c]) != [] && Join(parts, [c])[0] == parts[0][0] != c
  {
    var p := parts[0];
    var parts' := [p[1..]] + parts[1..];
    assert forall x :: x in p[1..] ==> x in p;
    assert p[0] in p;
    if |parts| > 1 {
      assert parts'[1..] == parts[1..];
    }
  }

  lemma SplitFirstChar(s: string, c: char)
    requires s != [] && s[0] != c
    ensures Split(s, c) == [[s[0]] + Split(s[1..], c)[0]] + Split(s[1..], c)[1..]
  {
  }

  lemma Regroup(parts: seq<string>)
    requires |parts| >= 1 && parts[0] != []
    ensures [[parts[0][0]] + ([parts[0][1..]] + parts[1..])[0]] + ([parts[0][1..]] + parts[1..])[1..] == parts
  {
    assert [parts[0][0]] + parts[0][1..] == parts[0];
    assert ([parts[0][1..]] + parts[1..])[1..] == parts[1..];
  }
}
