/** The PHP string built-ins `queryData` relies on: `trim` with its default
    character list, and `empty` on a string. */
module PhpString {

  /** The characters `trim` strips by default: space, tab, line feed,
      carriage return, NUL and vertical tab. */
  predicate IsTrimChar(c: char) {
    c == ' ' || c == '\t' || c == '\n' || c == '\r' || c == '\0' || c == '\U{B}'
  }

  predicate AllTrimChars(s: string) {
    forall k :: 0 <= k < |s| ==> IsTrimChar(s[k])
  }

  /** A string with nothing `trim` would remove at either end. */
  predicate IsTrimmed(s: string) {
    s == [] || (!IsTrimChar(s[0]) && !IsTrimChar(s[|s| - 1]))
  }

  /** `ltrim`: drops the longest prefix of trim characters. */
  function TrimLeft(s: string): (r: string)
    ensures |r| <= |s| && r == s[|s| - |r|..]
    ensures forall k :: 0 <= k < |s| - |r| ==> IsTrimChar(s[k])
    ensures r == [] || !IsTrimChar(r[0])
  {
    if |s| > 0 && IsTrimChar(s[0]) then TrimLeft(s[1..]) else s
  }

  /** `rtrim`: drops the longest suffix of trim characters. */
  function TrimRight(s: string): (r: string)
    ensures |r| <= |s| && r == s[..|r|]
    ensures forall k :: |r| <= k < |s| ==> IsTrimChar(s[k])
    ensures r == [] || !IsTrimChar(r[|r| - 1])
  {
    if |s| > 0 && IsTrimChar(s[|s| - 1]) then TrimRight(s[..|s| - 1]) else s
  }

  /** `trim`: the contiguous middle of `s` left after stripping trim
      characters from both ends. */
  function Trim(s: string): (r: string)
    ensures IsTrimmed(r)
    ensures |r| <= |s|
  {
    TrimRight(TrimLeft(s))
  }

  /** `ltrim` of a trim-only prefix followed by a string that does not start
      with a trim character returns exactly that string. */
  lemma {:induction false} TrimLeftSkips(p: string, t: string)
    requires AllTrimChars(p)
    requires t == [] || !IsTrimChar(t[0])
    ensures TrimLeft(p + t) == t
  {
    if p == [] {
      assert p + t == t;
    } else {
      assert (p + t)[0] == p[0];
      assert (p + t)[1..] == p[1..] + t;
      assert AllTrimChars(p[1..]) by {
        forall k | 0 <= k < |p[1..]|
          ensures IsTrimChar(p[1..][k])
        {
          assert p[1..][k] == p[k + 1];
        }
      }
      TrimLeftSkips(p[1..], t);
    }
  }

  /** `rtrim` of a string that does not end in a trim character followed by
      a trim-only suffix returns exactly that string. */
  lemma {:induction false} TrimRightSkips(t: string, q: string)
    requires AllTrimChars(q)
    requires t == [] || !IsTrimChar(t[|t| - 1])
    ensures TrimRight(t + q) == t
  {
    if q == [] {
      assert t + q == t;
    } else {
      var q' := q[..|q| - 1];
      assert (t + q)[|t + q| - 1] == q[|q| - 1];
      assert (t + q)[..|t + q| - 1] == t + q';
      assert AllTrimChars(q') by {
        forall k | 0 <= k < |q'|
          ensures IsTrimChar(q'[k])
        {
          assert q'[k] == q[k];
        }
      }
      TrimRightSkips(t, q');
    }
  }

  /** `trim` is characterised by its result: whatever trim characters
      surround a trimmed core, `trim` returns that core. */
  lemma TrimUnique(p: string, m: string, q: string)
    requires AllTrimChars(p) && AllTrimChars(q)
    requires IsTrimmed(m)
    ensures Trim(p + m + q) == m
  {
    if m == [] {
      assert p + m + q == p + q;
      assert AllTrimChars(p + q) by {
        forall k | 0 <= k < |p + q|
          ensures IsTrimChar((p + q)[k])
        {
          if k < |p| { assert (p + q)[k] == p[k]; } else { assert (p + q)[k] == q[k - |p|]; }
        }
      }
      TrimLeftSkips(p + q, []);
      assert p + q + [] == p + q;
    } else {
      assert p + m + q == p + (m + q);
      TrimLeftSkips(p, m + q);
      TrimRightSkips(m, q);
    }
  }

  lemma TrimLeftSplit(s: string)
    ensures s == s[..|s| - |TrimLeft(s)|] + TrimLeft(s)
    ensures AllTrimChars(s[..|s| - |TrimLeft(s)|])
  {
    var p := s[..|s| - |TrimLeft(s)|];
    forall k | 0 <= k < |p|
      ensures IsTrimChar(p[k])
    {
      assert p[k] == s[k];
    }
  }

  lemma TrimRightSplit(t: string)
    ensures t == TrimRight(t) + t[|TrimRight(t)|..]
    ensures AllTrimChars(t[|TrimRight(t)|..])
  {
    var q := t[|TrimRight(t)|..];
    forall k | 0 <= k < |q|
      ensures IsTrimChar(q[k])
    {
      assert q[k] == t[|TrimRight(t)| + k];
    }
  }

  /** Every string is its trimmed core surrounded by trim characters. */
  lemma TrimDecompose(s: string) returns (p: string, q: string)
    ensures AllTrimChars(p) && AllTrimChars(q)
    ensures s == p + Trim(s) + q
  {
    var left := TrimLeft(s);
    var m := TrimRight(left);
    p := s[..|s| - |left|];
    q := left[|m|..];
    assert AllTrimChars(p) && s == p + left by { TrimLeftSplit(s); }
    assert AllTrimChars(q) && left == m + q by { TrimRightSplit(left); }
    assert s == p + m + q by { ConcatAssoc(p, m, q); }
  }

  /** Associativity of concatenation, stated apart so that the proof above
      sees it without the trim facts around it. */
  lemma ConcatAssoc(p: string, m: string, q: string)
    ensures p + (m + q) == p + m + q
  {
  }

  /** Appending trim characters does not change what `trim` returns. */
  lemma TrimIgnoresTrailing(s: string, t: string)
    requires AllTrimChars(t)
    ensures Trim(s + t) == Trim(s)
  {
    var p, q := TrimDecompose(s);
    var m := Trim(s);
    assert s + t == p + m + (q + t);
    forall k | 0 <= k < |q + t|
      ensures IsTrimChar((q + t)[k])
    {
      if k < |q| { assert (q + t)[k] == q[k]; } else { assert (q + t)[k] == t[k - |q|]; }
    }
    TrimUnique(p, m, q + t);
  }

  /** A string with nothing to trim is left as it is. */
  lemma TrimKeepsTrimmed(m: string)
    requires IsTrimmed(m)
    ensures Trim(m) == m
  {
    TrimUnique([], m, []);
    assert [] + m + [] == m;
  }

  /** Trimming twice is trimming once. */
  lemma TrimIdempotent(s: string)
    ensures Trim(Trim(s)) == Trim(s)
  {
    TrimKeepsTrimmed(Trim(s));
  }

  /** When a line feed can only be the last character, `trim` leaves none. */
  lemma TrimDropsFinalNewline(s: string)
    requires forall k :: 0 <= k < |s| - 1 ==> s[k] != '\n'
    ensures '\n' !in Trim(s)
  {
    var r := Trim(s);
    var p, q := TrimDecompose(s);
    forall k | 0 <= k < |r|
      ensures r[k] != '\n'
    {
      assert r[k] == (p + r + q)[|p| + k];
      if k < |r| - 1 {
        assert |p| + k < |s| - 1;
      } else {
        assert IsTrimmed(r);
      }
    }
  }

  /** PHP's `empty` on a string: true for the empty string and for "0". */
  predicate IsPhpEmpty(s: string) {
    s == "" || s == "0"
  }
}
