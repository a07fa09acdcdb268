/** The two Python string operations the note parser relies on:
    `str.split(sep)` with a one-character separator, and `str.strip()`
    with no argument. */
module Text {

  /** Python's `str.isspace()` character set: the ASCII controls 0x09-0x0D and
      0x1C-0x1F, the space, and the Unicode separators Python treats as
      whitespace. */
  predicate IsSpace(c: char)
  {
    || ('\t' <= c <= '\r')
    || ('\U{1C}' <= c <= ' ')
    || c == '\U{85}' || c == '\U{A0}' || c == '\U{1680}'
    || ('\U{2000}' <= c <= '\U{200A}')
    || c == '\U{2028}' || c == '\U{2029}' || c == '\U{202F}' || c == '\U{205F}'
    || c == '\U{3000}'
  }

  /** Number of occurrences of `d` in `s` (Python's `s.count(d)`). */
  function Count(s: string, d: char): (n: nat)
    ensures n <= |s|
  {
    if s == [] then 0
    else (if s[0] == d then 1 else 0) + Count(s[1..], d)
  }

  /** The inverse of `Split`: the parts glued back together with `d` between
      neighbours (Python's `d.join(parts)`). */
  function Join(parts: seq<string>, d: char): string
  {
    if |parts| == 0 then []
    else if |parts| == 1 then parts[0]
    else parts[0] + [d] + Join(parts[1..], d)
  }

  lemma {:induction false} JoinExtendFirst(x: string, parts: seq<string>, d: char)
    requires |parts| >= 1
    ensures Join([x + parts[0]] + parts[1..], d) == x + Join(parts, d)
  {
    var ps := [x + parts[0]] + parts[1..];
    assert ps[1..] == parts[1..];
  }

  /** Python's `s.split(d)`: the runs of `s` between occurrences of `d`,
      always one more of them than there are separators. */
  function Split(s: string, d: char): (parts: seq<string>)
    ensures |parts| == Count(s, d) + 1
  {
    if s == [] then [[]]
    else
      var rest := Split(s[1..], d);
      if s[0] == d then [[]] + rest
      else [[s[0]] + rest[0]] + rest[1..]
  }

  /** The parts are maximal: none of them contains the separator. */
  lemma {:induction false} SplitPartsFree(s: string, d: char)
    ensures forall i :: 0 <= i < |Split(s, d)| ==> d !in Split(s, d)[i]
  {
    if s != [] {
      SplitPartsFree(s[1..], d);
      var rest := Split(s[1..], d);
      if s[0] != d {
        assert forall i :: 1 <= i < |Split(s, d)| ==> Split(s, d)[i] == rest[i];
      }
    }
  }

  /** Nothing is lost by splitting: joined back with `d`, the parts give `s`. */
  lemma {:induction false} JoinSplit(s: string, d: char)
    ensures Join(Split(s, d), d) == s
  {
    if s != [] {
      var rest := Split(s[1..], d);
      JoinSplit(s[1..], d);
      if s[0] == d {
        assert ([[]] + rest)[1..] == rest;
      } else {
        JoinExtendFirst([s[0]], rest, d);
      }
      assert [s[0]] + s[1..] == s;
    }
  }

  /** One step of `Split` on a string that starts with a non-separator. */
  lemma SplitCons(c: char, u: string, d: char)
    requires c != d
    ensures Split([c] + u, d) == [[c] + Split(u, d)[0]] + Split(u, d)[1..]
  {
    assert ([c] + u)[1..] == u;
  }

  /** Splitting a string that starts with a separator-free run `x`: `x` is
      glued to the front of the first part of the rest. */
  lemma {:induction false} SplitPrefix(x: string, t: string, d: char)
    requires d !in x
    ensures Split(x + t, d) == [x + Split(t, d)[0]] + Split(t, d)[1..]
  {
    var st := Split(t, d);
    if x == [] {
      assert x + t == t;
      assert x + st[0] == st[0];
      assert [st[0]] + st[1..] == st;
    } else {
      var c, y := x[0], x[1..];
      assert x == [c] + y;
      assert c != d && d !in y;
      SplitPrefix(y, t, d);
      var rest := Split(y + t, d);
      assert rest[0] == y + st[0] && rest[1..] == st[1..];
      assert x + t == [c] + (y + t);
      SplitCons(c, y + t, d);
      assert [c] + rest[0] == x + st[0];
    }
  }

  /** Round trip: splitting what `Join` built gives the parts back, as long
      as no part contains the separator. */
  lemma {:induction false} SplitJoin(parts: seq<string>, d: char)
    requires |parts| >= 1
    requires forall i :: 0 <= i < |parts| ==> d !in parts[i]
    ensures Split(Join(parts, d), d) == parts
  {
    var x := parts[0];
    if |parts| == 1 {
      SplitPrefix(x, [], d);
      assert x + [] == x;
    } else {
      var rest := parts[1..];
      SplitJoin(rest, d);
      var j := Join(rest, d);
      assert Join(parts, d) == x + ([d] + j);
      assert Split([d] + j, d) == [[]] + rest by {
        assert ([d] + j)[1..] == j;
      }
      SplitPrefix(x, [d] + j, d);
      assert x + [] == x;
      assert parts == [x] + rest;
    }
  }

  /** `s` with its leading whitespace removed (Python's `s.lstrip()`). */
  function TrimStart(s: string): string
  {
    if s != [] && IsSpace(s[0]) then TrimStart(s[1..]) else s
  }

  /** `TrimStart` drops a whitespace-only prefix and stops at the first
      character that is not whitespace. */
  lemma {:induction false} TrimStartSpec(s: string)
    ensures |TrimStart(s)| <= |s| && TrimStart(s) == s[|s| - |TrimStart(s)|..]
    ensures forall k :: 0 <= k < |s| - |TrimStart(s)| ==> IsSpace(s[k])
    ensures TrimStart(s) == [] || !IsSpace(TrimStart(s)[0])
  {
    if s != [] && IsSpace(s[0]) {
      TrimStartSpec(s[1..]);
      var r := TrimStart(s[1..]);
      assert s[|s| - |r|..] == s[1..][|s[1..]| - |r|..];
      forall k | 1 <= k < |s| - |r|
        ensures IsSpace(s[k])
      {
        assert s[k] == s[1..][k - 1];
      }
    }
  }

  /** `s` with its trailing whitespace removed (Python's `s.rstrip()`). */
  function TrimEnd(s: string): string
  {
    if s != [] && IsSpace(s[|s| - 1]) then TrimEnd(s[..|s| - 1]) else s
  }

  /** `TrimEnd` drops a whitespace-only suffix and stops at the last
      character that is not whitespace. */
  lemma {:induction false} TrimEndSpec(s: string)
    ensures |TrimEnd(s)| <= |s| && TrimEnd(s) == s[..|TrimEnd(s)|]
    ensures forall k :: |TrimEnd(s)| <= k < |s| ==> IsSpace(s[k])
    ensures TrimEnd(s) == [] || !IsSpace(TrimEnd(s)[|TrimEnd(s)| - 1])
  {
    if s != [] && IsSpace(s[|s| - 1]) {
      var s' := s[..|s| - 1];
      TrimEndSpec(s');
      forall k | |TrimEnd(s')| <= k < |s| - 1
        ensures IsSpace(s[k])
      {
        assert s[k] == s'[k];
      }
    }
  }

  /** `r` is the part of `s` that starts at `i`, and everything of `s` around
      it is whitespace. */
  ghost predicate CutAt(s: string, r: string, i: int)
  {
    && 0 <= i <= i + |r| <= |s|
    && r == s[i..i + |r|]
    && (forall k :: 0 <= k < i ==> IsSpace(s[k]))
    && (forall k :: i + |r| <= k < |s| ==> IsSpace(s[k]))
  }

  ghost predicate NoOuterSpace(r: string)
  {
    r == [] || (!IsSpace(r[0]) && !IsSpace(r[|r| - 1]))
  }

  /** Python's `s.strip()`: never longer than its input, and neither starting
      nor ending with whitespace. */
  function Strip(s: string): (r: string)
    ensures |r| <= |s|
    ensures NoOuterSpace(r)
  {
    var t := TrimStart(s);
    TrimStartSpec(s);
    TrimEndSpec(t);
    TrimEnd(t)
  }

  lemma StripCut(s: string)
    ensures CutAt(s, Strip(s), |s| - |TrimStart(s)|)
  {
    var t := TrimStart(s);
    var r := TrimEnd(t);
    assert Strip(s) == r;
    TrimStartSpec(s);
    TrimEndSpec(t);
    var i := |s| - |t|;
    assert s[i..i + |r|] == t[..|r|];
    forall k | i + |r| <= k < |s|
      ensures IsSpace(s[k])
    {
      assert s[k] == t[k - i];
    }
  }

  /** `Strip` removes whitespace from both ends and nothing else: the result
      is a piece of `s` with only whitespace around it, and it neither starts
      nor ends with whitespace. */
  lemma StripSpec(s: string)
    ensures exists i :: CutAt(s, Strip(s), i)
    ensures NoOuterSpace(Strip(s))
  {
    var t := TrimStart(s);
    StripCut(s);
    assert CutAt(s, Strip(s), |s| - |t|);
  }

  /** The contract of `Strip` leaves no choice: any cut of `s` that removes
      only whitespace and leaves none at either end is `Strip(s)`. */
  lemma StripUnique(s: string, r: string, i: int)
    requires CutAt(s, r, i) && NoOuterSpace(r)
    ensures r == Strip(s)
  {
    var q := Strip(s);
    StripSpec(s);
    var j :| CutAt(s, q, j);
    if r != [] {
      assert r[0] == s[i] && r[|r| - 1] == s[i + |r| - 1];
    }
    if q != [] {
      assert q[0] == s[j] && q[|q| - 1] == s[j + |q| - 1];
    }
  }

  /** Stripping twice changes nothing more. */
  lemma StripIdempotent(s: string)
    ensures Strip(Strip(s)) == Strip(s)
  {
    var r := Strip(s);
    StripSpec(s);
    assert CutAt(r, r, 0) by {
      assert r[0..|r|] == r;
    }
    StripUnique(r, r, 0);
  }

  /** Stripping only removes characters: one that is absent from `s` is
      absent from `Strip(s)`. */
  lemma StripKeepsAbsent(s: string, c: char)
    requires c !in s
    ensures c !in Strip(s)
  {
    var r := Strip(s);
    StripSpec(s);
    var i :| CutAt(s, r, i);
    forall m | 0 <= m < |r|
      ensures r[m] != c
    {
      assert r[m] == s[i + m];
    }
  }
}
