/** The handful of Python string builtins the two streaming stages use:
    `str.strip()`, `str.startswith`, `str.split(sep, 1)` and `str.join`.
    Strings are sequences of code points, as in Python 3. */
module Text {

  datatype Option<T> = None | Some(value: T)

  /** The characters `str.isspace()` accepts, which are exactly the ones
      `str.strip()` removes when called without arguments. */
  predicate IsWs(c: char) {
    var n := c as int;
    (0x09 <= n <= 0x0D) || (0x1C <= n <= 0x20) || n == 0x85 || n == 0xA0
    || n == 0x1680 || (0x2000 <= n <= 0x200A) || n == 0x2028 || n == 0x2029
    || n == 0x202F || n == 0x205F || n == 0x3000
  }

  predicate AllWs(s: string) {
    forall i :: 0 <= i < |s| ==> IsWs(s[i])
  }

  /** No whitespace at either end: what `strip()` leaves. */
  predicate Unpadded(s: string) {
    s == [] || (!IsWs(s[0]) && !IsWs(s[|s| - 1]))
  }

  /** `str.lstrip()`: drops leading whitespace (TrimLeftParts says how much). */
  function TrimLeft(s: string): string {
    if s != [] && IsWs(s[0]) then TrimLeft(s[1..]) else s
  }

  /** `str.rstrip()`: drops trailing whitespace (TrimRightParts says how much). */
  function TrimRight(s: string): string {
    if s != [] && IsWs(s[|s| - 1]) then TrimRight(s[..|s| - 1]) else s
  }

  /** TrimLeft keeps a suffix of `s` that does not start with whitespace
      and drops only whitespace. */
  lemma {:induction false} TrimLeftParts(s: string)
    ensures var r := TrimLeft(s);
      |r| <= |s| && r == s[|s| - |r|..] && AllWs(s[..|s| - |r|]) && (r != [] ==> !IsWs(r[0]))
    decreases |s|
  {
    if s != [] && IsWs(s[0]) {
      TrimLeftParts(s[1..]);
      var r := TrimLeft(s);
      assert s[..|s| - |r|] == [s[0]] + s[1..][..|s| - 1 - |r|];
    }
  }

  /** TrimRight keeps a prefix of `s` that does not end with whitespace
      and drops only whitespace. */
  lemma {:induction false} TrimRightParts(s: string)
    ensures var r := TrimRight(s);
      |r| <= |s| && r == s[..|r|] && AllWs(s[|r|..]) && (r != [] ==> !IsWs(r[|r| - 1]))
    decreases |s|
  {
    if s != [] && IsWs(s[|s| - 1]) {
      TrimRightParts(s[..|s| - 1]);
      var r := TrimRight(s);
      assert s[|r|..] == s[..|s| - 1][|r|..] + [s[|s| - 1]];
    }
  }

  /** `str.strip()`: what remains of `s` without its leading and trailing
      whitespace; StripParts gives the removed padding. */
  function Strip(s: string): (r: string)
    ensures Unpadded(r)
    ensures r == [] <==> AllWs(s)
  {
    var t := TrimLeft(s);
    var r := TrimRight(t);
    StripPartsOf(s, t, r);
    r
  }

  lemma StripPartsOf(s: string, t: string, r: string)
    requires t == TrimLeft(s) && r == TrimRight(t)
    ensures Unpadded(r) && (r == [] <==> AllWs(s))
  {
    StripEndsOf(s, t, r);
    StripEmptyOf(s, t, r);
  }

  lemma StripEndsOf(s: string, t: string, r: string)
    requires t == TrimLeft(s) && r == TrimRight(t)
    ensures Unpadded(r)
  {
    TrimLeftParts(s);
    TrimRightParts(t);
    if r != [] {
      assert r[0] == t[0];
    }
  }

  lemma StripEmptyOf(s: string, t: string, r: string)
    requires t == TrimLeft(s) && r == TrimRight(t)
    ensures r == [] <==> AllWs(s)
  {
    var pre, post := StripParts(s);
    AllWsConcat(pre, r + post);
    AllWsConcat(r, post);
    StripEndsOf(s, t, r);
    assert pre + r + post == pre + (r + post);
  }

  /** `s` is Strip's result with whitespace on both sides. */
  lemma StripParts(s: string) returns (pre: string, post: string)
    ensures s == pre + TrimRight(TrimLeft(s)) + post
    ensures AllWs(pre) && AllWs(post)
  {
    var t := TrimLeft(s);
    var r := TrimRight(t);
    TrimLeftParts(s);
    TrimRightParts(t);
    pre, post := s[..|s| - |t|], t[|r|..];
    assert s == pre + t && t == r + post;
    assert pre + r + post == pre + (r + post);
  }

  lemma AllWsConcat(a: string, b: string)
    ensures AllWs(a + b) <==> AllWs(a) && AllWs(b)
  {
    if AllWs(a + b) {
      assert forall i :: 0 <= i < |a| ==> a[i] == (a + b)[i];
      assert forall i :: 0 <= i < |b| ==> b[i] == (a + b)[|a| + i];
    }
    if AllWs(a) && AllWs(b) {
      assert forall i :: 0 <= i < |a + b| ==> (a + b)[i] == if i < |a| then a[i] else b[i - |a|];
    }
  }

  lemma {:induction false} TrimLeftPadded(pre: string, t: string)
    requires AllWs(pre) && (t == [] || !IsWs(t[0]))
    ensures TrimLeft(pre + t) == t
    decreases |pre|
  {
    if pre != [] {
      assert (pre + t)[1..] == pre[1..] + t;
      TrimLeftPadded(pre[1..], t);
    }
  }

  lemma {:induction false} TrimRightPadded(t: string, post: string)
    requires AllWs(post) && (t == [] || !IsWs(t[|t| - 1]))
    ensures TrimRight(t + post) == t
    decreases |post|
  {
    if post != [] {
      assert (t + post)[..|t + post| - 1] == t + post[..|post| - 1];
      TrimRightPadded(t, post[..|post| - 1]);
    } else {
      assert t + post == t;
    }
  }

  /** The partner of Strip's contract: any split of `s` into whitespace,
      an unpadded core and whitespace has Strip(s) as its core. */
  lemma StripUnique(pre: string, t: string, post: string)
    requires AllWs(pre) && AllWs(post) && Unpadded(t)
    ensures Strip(pre + t + post) == t
  {
    if t == [] {
      assert AllWs(pre + t + post);
    } else {
      assert pre + t + post == pre + (t + post);
      TrimLeftPadded(pre, t + post);
      TrimRightPadded(t, post);
    }
  }

  /** Stripping ignores one more whitespace character at the end. */
  lemma StripIgnoresTrailingWs(s: string, c: char)
    requires IsWs(c)
    ensures Strip(s + [c]) == Strip(s)
  {
    var pre, post := StripParts(s);
    var t := Strip(s);
    assert s + [c] == pre + t + (post + [c]);
    AllWsConcat(post, [c]);
    StripUnique(pre, t, post + [c]);
  }

  /** Stripping ignores one more whitespace character at the start. */
  lemma StripIgnoresLeadingWs(c: char, s: string)
    requires IsWs(c)
    ensures Strip([c] + s) == Strip(s)
  {
    var pre, post := StripParts(s);
    var t := Strip(s);
    assert [c] + s == ([c] + pre) + t + post;
    AllWsConcat([c], pre);
    StripUnique([c] + pre, t, post);
  }

  /** `s.startswith(prefix)`. */
  predicate StartsWith(s: string, prefix: string) {
    prefix <= s
  }

  /** `s.split(d, 1)` unpacked into two names: None when `d` does not occur
      (Python raises there), otherwise the text before the first `d` and
      everything after it. */
  function SplitFirst(s: string, d: char): (r: Option<(string, string)>)
    ensures r.None? <==> d !in s
    ensures r.Some? ==> d !in r.value.0 && s == r.value.0 + [d] + r.value.1
  {
    if s == [] then None
    else if s[0] == d then Some(([], s[1..]))
    else match SplitFirst(s[1..], d)
      case None => None
      case Some((k, v)) => Some(([s[0]] + k, v))
  }

  /** The first occurrence is the only split point whose left part is free
      of `d`, so the decomposition in SplitFirst's contract is unique. */
  lemma {:induction false} SplitFirstUnique(k: string, d: char, v: string)
    requires d !in k
    ensures SplitFirst(k + [d] + v, d) == Some((k, v))
    decreases |k|
  {
    if k != [] {
      assert (k + [d] + v)[1..] == k[1..] + [d] + v;
      SplitFirstUnique(k[1..], d, v);
      assert [k[0]] + k[1..] == k;
    }
  }

  /** `sep.join(parts)`. */
  function Join(sep: string, parts: seq<string>): string {
    if parts == [] then []
    else if |parts| == 1 then parts[0]
    else parts[0] + sep + Join(sep, parts[1..])
  }

  /** `s.split(d)` for a one-character separator: the pieces between the
      occurrences of `d`, at least one. */
  function SplitAll(s: string, d: char): (r: seq<string>)
    ensures r != []
    ensures forall i :: 0 <= i < |r| ==> d !in r[i]
    decreases |s|
  {
    match SplitFirst(s, d)
    case None => [s]
    case Some((k, v)) => [k] + SplitAll(v, d)
  }

  /** Joining values that do not contain the separator can be undone by
      splitting: the joined list loses nothing and invents nothing. */
  lemma {:induction false} SplitJoin(parts: seq<string>, d: char)
    requires parts != []
    requires forall i :: 0 <= i < |parts| ==> d !in parts[i]
    ensures SplitAll(Join([d], parts), d) == parts
    decreases |parts|
  {
    if |parts| > 1 {
      SplitFirstUnique(parts[0], d, Join([d], parts[1..]));
      SplitJoin(parts[1..], d);
      assert parts == [parts[0]] + parts[1..];
    }
  }
}
