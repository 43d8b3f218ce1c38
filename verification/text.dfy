/** The string operations the organizer forms apply to their inputs:
    Python's `str.strip()` (no argument) and single-character `str.replace`. */
module Text {

  /** Python's `str.isspace()` for one code point: the characters `strip()`
      removes when called without an argument. */
  predicate IsSpace(c: char) {
    || ('\t' <= c <= '\r')
    || ('\U{1C}' <= c <= '\U{1F}')
    || c == ' '
    || c == '\U{85}'
    || c == '\U{A0}'
    || c == '\U{1680}'
    || ('\U{2000}' <= c <= '\U{200A}')
    || c == '\U{2028}'
    || c == '\U{2029}'
    || c == '\U{202F}'
    || c == '\U{205F}'
    || c == '\U{3000}'
  }

  predicate AllSpace(s: string) {
    forall i | 0 <= i < |s| :: IsSpace(s[i])
  }

  /** Neither end of `s` is whitespace (vacuously true of the empty string). */
  predicate Trimmed(s: string) {
    s == [] || (!IsSpace(s[0]) && !IsSpace(s[|s| - 1]))
  }

  /** `m` occurs in `s` at offset `i` with only whitespace around it. */
  predicate FramedBySpace(s: string, i: int, m: string) {
    && 0 <= i <= |s| - |m|
    && s[i..i + |m|] == m
    && AllSpace(s[..i])
    && AllSpace(s[i + |m|..])
  }

  /** Python's `s.lstrip()`. */
  function TrimStart(s: string): (r: string)
    ensures |r| <= |s|
  {
    if s != [] && IsSpace(s[0]) then TrimStart(s[1..]) else s
  }

  /** `lstrip()` removes a whitespace prefix, and all of it. */
  lemma {:induction false} TrimStartFacts(s: string)
    ensures var r := TrimStart(s);
      && r == s[|s| - |r|..]
      && AllSpace(s[..|s| - |r|])
      && (r == [] || !IsSpace(r[0]))
    decreases |s|
  {
    if s != [] && IsSpace(s[0]) {
      TrimStartFacts(s[1..]);
      var r := TrimStart(s);
      assert s[..|s| - |r|] == [s[0]] + s[1..][..|s| - 1 - |r|];
    }
  }

  /** Python's `s.rstrip()`. */
  function TrimEnd(s: string): (r: string)
    ensures |r| <= |s|
  {
    if s != [] && IsSpace(s[|s| - 1]) then TrimEnd(s[..|s| - 1]) else s
  }

  /** `rstrip()` removes a whitespace suffix, and all of it. */
  lemma {:induction false} TrimEndFacts(s: string)
    ensures var r := TrimEnd(s);
      && r == s[..|r|]
      && AllSpace(s[|r|..])
      && (r == [] || !IsSpace(r[|r| - 1]))
    decreases |s|
  {
    if s != [] && IsSpace(s[|s| - 1]) {
      TrimEndFacts(s[..|s| - 1]);
      var r := TrimEnd(s);
      assert s[|r|..] == s[..|s| - 1][|r|..] + [s[|s| - 1]];
    }
  }

  /** Python's `s.strip()`: whitespace removed from both ends. */
  function Strip(s: string): (r: string)
    ensures Trimmed(r)
  {
    TrimStartFacts(s);
    TrimEndFacts(TrimStart(s));
    TrimEnd(TrimStart(s))
  }

  /** What `strip()` leaves: the part of `s` between its leading and its
      trailing whitespace, empty exactly when `s` is all whitespace. */
  lemma {:induction false} StripFacts(s: string)
    ensures FramedBySpace(s, |s| - |TrimStart(s)|, Strip(s))
    ensures Strip(s) == [] <==> AllSpace(s)
  {
    StripFrame(s);
    StripEmptyOnlyIfSpace(s);
    StripEmptyIfSpace(s);
  }

  lemma {:induction false} StripFrame(s: string)
    ensures var t := TrimStart(s); FramedBySpace(s, |s| - |t|, TrimEnd(t))
  {
    var t := TrimStart(s);
    var r := TrimEnd(t);
    var k := |s| - |t|;
    TrimStartFacts(s);
    TrimEndFacts(t);
    assert t == s[k..];
    assert s[k..k + |r|] == s[k..][..|r|];
    assert s[k + |r|..] == s[k..][|r|..];
  }

  lemma {:induction false} StripEmptyOnlyIfSpace(s: string)
    ensures TrimEnd(TrimStart(s)) == [] ==> AllSpace(s)
  {
    var t := TrimStart(s);
    var r := TrimEnd(t);
    var k := |s| - |t|;
    TrimStartFacts(s);
    TrimEndFacts(t);
    if r == [] {
      assert t[|r|..] == t;
      assert t == [];
      assert s[..k] == s;
    }
  }

  lemma {:induction false} StripEmptyIfSpace(s: string)
    ensures TrimEnd(TrimStart(s)) != [] ==> !AllSpace(s)
  {
    var t := TrimStart(s);
    var r := TrimEnd(t);
    var k := |s| - |t|;
    TrimStartFacts(s);
    TrimEndFacts(t);
    if r != [] {
      assert r[0] == t[0];
      assert t[0] == s[k];
      assert !IsSpace(s[k]);
    }
  }

  lemma {:induction false} TrimStartSpacePrefix(a: string, m: string)
    requires AllSpace(a)
    requires m == [] || !IsSpace(m[0])
    ensures TrimStart(a + m) == m
    decreases |a|
  {
    if a == [] {
      assert a + m == m;
    } else {
      assert (a + m)[0] == a[0];
      assert (a + m)[1..] == a[1..] + m;
      TrimStartSpacePrefix(a[1..], m);
    }
  }

  lemma {:induction false} TrimEndSpaceSuffix(m: string, b: string)
    requires AllSpace(b)
    requires m == [] || !IsSpace(m[|m| - 1])
    ensures TrimEnd(m + b) == m
    decreases |b|
  {
    if b == [] {
      assert m + b == m;
    } else {
      var n := |m + b|;
      assert (m + b)[n - 1] == b[|b| - 1];
      assert (m + b)[..n - 1] == m + b[..|b| - 1];
      TrimEndSpaceSuffix(m, b[..|b| - 1]);
    }
  }

  lemma {:induction false} AllSpaceAppend(a: string, b: string)
    requires AllSpace(a) && AllSpace(b)
    ensures AllSpace(a + b)
  {
    forall i | 0 <= i < |a + b| ensures IsSpace((a + b)[i]) {
      if i < |a| { assert (a + b)[i] == a[i]; } else { assert (a + b)[i] == b[i - |a|]; }
    }
  }

  /** `strip()` is determined by the frame: whatever whitespace surrounds a
      trimmed middle part, stripping yields exactly that part. */
  lemma {:induction false} StripFramed(a: string, m: string, b: string)
    requires AllSpace(a) && AllSpace(b) && Trimmed(m)
    ensures Strip(a + m + b) == m
  {
    if m == [] {
      assert a + m + b == a + b;
      AllSpaceAppend(a, b);
      StripFacts(a + b);
    } else {
      assert a + m + b == a + (m + b);
      assert (m + b)[0] == m[0];
      TrimStartSpacePrefix(a, m + b);
      TrimEndSpaceSuffix(m, b);
    }
  }

  /** Extra whitespace around a text does not change what `strip()` leaves. */
  lemma {:induction false} StripSpaceFrame(a: string, x: string, b: string)
    requires AllSpace(a) && AllSpace(b)
    ensures Strip(a + x + b) == Strip(x)
  {
    var k := |x| - |TrimStart(x)|;
    var m := Strip(x);
    StripFacts(x);
    var before := x[..k];
    var after := x[k + |m|..];
    assert x == before + m + after;
    AllSpaceAppend(a, before);
    AllSpaceAppend(after, b);
    assert a + x + b == (a + before) + m + (after + b);
    StripFramed(a + before, m, after + b);
  }

  /** A string without surrounding whitespace is left as it is. */
  lemma {:induction false} StripTrimmed(s: string)
    requires Trimmed(s)
    ensures Strip(s) == s
  {
    assert [] + s + [] == s;
    StripFramed([], s, []);
  }

  /** Python's `s.replace(a, b)` for single characters `a` and `b`. */
  function ReplaceChar(s: string, a: char, b: char): (r: string)
    ensures |r| == |s|
    ensures forall i | 0 <= i < |s| :: r[i] == (if s[i] == a then b else s[i])
  {
    if s == [] then []
    else [if s[0] == a then b else s[0]] + ReplaceChar(s[1..], a, b)
  }

  /** Python's `s.replace(c, '')`: every occurrence of `c` dropped, the other
      characters kept in order. */
  function RemoveChar(s: string, c: char): (r: string)
    ensures c !in r
    ensures |r| <= |s|
    ensures c !in s ==> r == s
    ensures forall x | x != c :: x in r <==> x in s
  {
    if s == [] then []
    else if s[0] == c then RemoveChar(s[1..], c)
    else [s[0]] + RemoveChar(s[1..], c)
  }

  lemma {:induction false} RemoveCharAppend(s: string, t: string, c: char)
    ensures RemoveChar(s + t, c) == RemoveChar(s, c) + RemoveChar(t, c)
    decreases |s|
  {
    if s == [] {
      assert s + t == t;
    } else {
      assert (s + t)[0] == s[0];
      assert (s + t)[1..] == s[1..] + t;
      RemoveCharAppend(s[1..], t, c);
    }
  }

  lemma {:induction false} ReplaceCharAppend(s: string, t: string, a: char, b: char)
    ensures ReplaceChar(s + t, a, b) == ReplaceChar(s, a, b) + ReplaceChar(t, a, b)
    decreases |s|
  {
    if s == [] {
      assert s + t == t;
    } else {
      assert (s + t)[0] == s[0];
      assert (s + t)[1..] == s[1..] + t;
      ReplaceCharAppend(s[1..], t, a, b);
      var c := if s[0] == a then b else s[0];
      assert [c] + ReplaceChar(s[1..], a, b) + ReplaceChar(t, a, b)
          == [c] + (ReplaceChar(s[1..], a, b) + ReplaceChar(t, a, b));
    }
  }

  /** Replacing a character that does not occur changes nothing. */
  lemma {:induction false} ReplaceCharAbsent(s: string, a: char, b: char)
    requires a !in s
    ensures ReplaceChar(s, a, b) == s
  {
    var r := ReplaceChar(s, a, b);
    forall i | 0 <= i < |s| ensures r[i] == s[i] {
      assert s[i] != a;
    }
  }

  /** `strip()` introduces no character. */
  lemma {:induction false} StripAbsent(s: string, c: char)
    requires c !in s
    ensures c !in Strip(s)
  {
    var k := |s| - |TrimStart(s)|;
    var r := Strip(s);
    StripFacts(s);
    forall i | 0 <= i < |r| ensures r[i] != c {
      assert r[i] == s[k..k + |r|][i] == s[k + i];
    }
  }

  /** A character of `s` either survives `strip()` or is whitespace. */
  lemma {:induction false} StripKeeps(s: string, c: char)
    requires c in s
    ensures c in Strip(s) || IsSpace(c)
  {
    var t := Strip(s);
    var k := |s| - |TrimStart(s)|;
    StripFacts(s);
    var j :| 0 <= j < |s| && s[j] == c;
    if j < k {
      assert s[..k][j] == c;
    } else if j < k + |t| {
      assert t[j - k] == c;
    } else {
      assert s[k + |t|..][j - k - |t|] == c;
    }
  }

  /** Index of the first occurrence of `c` in `s`, or `|s|` when there is none. */
  function IndexOf(s: string, c: char): (i: nat)
    ensures i <= |s|
    ensures i < |s| ==> s[i] == c
    ensures forall j | 0 <= j < i :: s[j] != c
  {
    if s == [] then 0
    else if s[0] == c then 0
    else 1 + IndexOf(s[1..], c)
  }

  /** The first `c` of `a + [c] + b` is the one after `a` when `a` has none. */
  lemma {:induction false} IndexOfPast(a: string, c: char, b: string)
    requires forall j | 0 <= j < |a| :: a[j] != c
    ensures IndexOf(a + [c] + b, c) == |a|
    decreases |a|
  {
    if a != [] {
      assert (a + [c] + b)[0] == a[0];
      assert (a + [c] + b)[1..] == a[1..] + [c] + b;
      IndexOfPast(a[1..], c, b);
    } else {
      assert (a + [c] + b)[0] == c;
    }
  }
}
