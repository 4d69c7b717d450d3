/** The JavaScript string primitives the core relies on: `trim`, the `\s` class and `toLowerCase`. */
module Strings {
  import opened Wrappers

  /** The code points JavaScript counts as WhiteSpace or LineTerminator: what `trim` strips and what `\s` matches. */
  predicate IsWhitespace(c: char) {
    || c == '\t' || c == '\n' || c == '\U{B}' || c == '\U{C}' || c == '\r' || c == ' '
    || c == '\U{A0}' || c == '\U{1680}' || ('\U{2000}' <= c <= '\U{200A}')
    || c == '\U{2028}' || c == '\U{2029}' || c == '\U{202F}' || c == '\U{205F}'
    || c == '\U{3000}' || c == '\U{FEFF}'
  }

  /** The line terminators, which the regular-expression `.` does not match. */
  predicate IsLineTerminator(c: char) {
    c == '\n' || c == '\r' || c == '\U{2028}' || c == '\U{2029}'
  }

  ghost predicate AllWhitespace(s: string) {
    forall k :: 0 <= k < |s| ==> IsWhitespace(s[k])
  }

  /** Neither the first nor the last character is whitespace. */
  ghost predicate IsTrimmed(s: string) {
    s == [] || (!IsWhitespace(s[0]) && !IsWhitespace(s[|s| - 1]))
  }

  /** Drops the leading whitespace. */
  function TrimStart(s: string): (r: string)
    ensures |r| <= |s|
    ensures r != [] ==> !IsWhitespace(r[0])
    ensures r == [] <==> AllWhitespace(s)
  {
    if s != [] && IsWhitespace(s[0]) then
      var r := TrimStart(s[1..]);
      assert AllWhitespace(s) <==> AllWhitespace(s[1..]) by {
        if AllWhitespace(s[1..]) {
          forall k | 0 <= k < |s| ensures IsWhitespace(s[k]) {
            if k > 0 { assert s[k] == s[1..][k - 1]; }
          }
        }
      }
      r
    else
      s
  }

  /** Drops the trailing whitespace; what remains is a prefix of `s`. */
  function TrimEnd(s: string): (r: string)
    ensures |r| <= |s| && r == s[..|r|]
    ensures r != [] ==> !IsWhitespace(r[|r| - 1])
    ensures r == [] <==> AllWhitespace(s)
  {
    if s != [] && IsWhitespace(s[|s| - 1]) then
      var r := TrimEnd(s[..|s| - 1]);
      assert s[..|s| - 1][..|r|] == s[..|r|];
      assert AllWhitespace(s) <==> AllWhitespace(s[..|s| - 1]) by {
        if AllWhitespace(s[..|s| - 1]) {
          forall k | 0 <= k < |s| ensures IsWhitespace(s[k]) {
            if k < |s| - 1 { assert s[k] == s[..|s| - 1][k]; }
          }
        }
      }
      r
    else
      s
  }

  /** `String.prototype.trim`: whitespace removed at both ends. */
  function Trim(s: string): (r: string)
    ensures |r| <= |s|
    ensures IsTrimmed(r)
    ensures r == [] <==> AllWhitespace(s)
  {
    var t := TrimStart(s);
    var r := TrimEnd(t);
    if r == [] then r
    else
      assert r[0] == t[0];
      r
  }

  lemma {:induction false} TrimStartSkips(a: string, x: string)
    requires AllWhitespace(a)
    ensures TrimStart(a + x) == TrimStart(x)
  {
    if a == [] {
      assert a + x == x;
    } else {
      assert (a + x)[1..] == a[1..] + x;
      assert (a + x)[0] == a[0];
      var c := a[1..];
      assert AllWhitespace(c) by {
        forall k | 0 <= k < |c| ensures IsWhitespace(c[k]) {
          assert c[k] == a[k + 1];
        }
      }
      TrimStartSkips(a[1..], x);
      assert TrimStart(a + x) == TrimStart((a + x)[1..]);
    }
  }

  lemma {:induction false} TrimEndSkips(y: string, b: string)
    requires AllWhitespace(b)
    ensures TrimEnd(y + b) == TrimEnd(y)
  {
    if b == [] {
      assert y + b == y;
    } else {
      assert (y + b)[..|y + b| - 1] == y + b[..|b| - 1];
      assert (y + b)[|y + b| - 1] == b[|b| - 1];
      var c := b[..|b| - 1];
      assert AllWhitespace(c) by {
        forall k | 0 <= k < |c| ensures IsWhitespace(c[k]) {
          assert c[k] == b[k];
        }
      }
      TrimEndSkips(y, c);
      assert TrimEnd(y + b) == TrimEnd((y + b)[..|y + b| - 1]);
    }
  }

  lemma {:induction false} TrimStartAppend(u: string, b: string)
    requires !AllWhitespace(u)
    ensures TrimStart(u + b) == TrimStart(u) + b
  {
    assert u != [];
    assert (u + b)[0] == u[0];
    if IsWhitespace(u[0]) {
      assert (u + b)[1..] == u[1..] + b;
      TrimStartAppend(u[1..], b);
      assert TrimStart(u + b) == TrimStart((u + b)[1..]);
    }
  }

  /** Whitespace added around a string does not change its trim. */
  lemma TrimPadded(a: string, u: string, b: string)
    requires AllWhitespace(a) && AllWhitespace(b)
    ensures Trim(a + u + b) == Trim(u)
  {
    assert a + u + b == a + (u + b);
    TrimStartSkips(a, u + b);
    if AllWhitespace(u) {
      TrimStartSkips(u, b);
      assert TrimStart(b) == [] && TrimStart(u) == [];
    } else {
      TrimStartAppend(u, b);
      TrimEndSkips(TrimStart(u), b);
    }
  }

  /** A trimmed string is its own trim. */
  lemma TrimTrimmed(s: string)
    requires IsTrimmed(s)
    ensures Trim(s) == s
  {
  }

  /** Trimming is determined by the shape `whitespace + trimmed core + whitespace`. */
  lemma TrimUnique(a: string, m: string, b: string)
    requires AllWhitespace(a) && AllWhitespace(b) && IsTrimmed(m)
    ensures Trim(a + m + b) == m
  {
    TrimPadded(a, m, b);
    TrimTrimmed(m);
  }

  /** Trimming is idempotent. */
  lemma TrimIdempotent(s: string)
    ensures Trim(Trim(s)) == Trim(s)
  {
    TrimTrimmed(Trim(s));
  }

  /** ASCII `toLowerCase`: A-Z map to a-z, every other character is kept. */
  function ToLowerChar(c: char): (r: char)
    ensures 'A' <= c <= 'Z' ==> 'a' <= r <= 'z' && r as int == c as int + ('a' as int - 'A' as int)
    ensures !('A' <= c <= 'Z') ==> r == c
  {
    if 'A' <= c <= 'Z' then (c as int + 32) as char else c
  }

  function ToLower(s: string): (r: string)
    ensures |r| == |s|
    ensures forall k :: 0 <= k < |s| ==> r[k] == ToLowerChar(s[k])
  {
    seq(|s|, k requires 0 <= k < |s| => ToLowerChar(s[k]))
  }

  /** JavaScript truthiness of an optional string: present and not the empty string. */
  predicate IsTruthy(v: Option<string>) {
    v.Some? && v.value != ""
  }

  /** JavaScript `v || null` on an optional string: the empty string becomes null. */
  function OrNull(v: Option<string>): (r: Option<string>)
    ensures r.Some? <==> IsTruthy(v)
    ensures r.Some? ==> r == v
  {
    if IsTruthy(v) then v else None
  }

  /** `v?.trim()`: the trimmed string, and undefined stays undefined. */
  function TrimOpt(v: Option<string>): (r: Option<string>)
    ensures r.Some? <==> v.Some?
    ensures r.Some? ==> IsTrimmed(r.value) && (r.value == [] <==> AllWhitespace(v.value))
  {
    if v.Some? then Some(Trim(v.value)) else None
  }
}
