/**
 * The handful of Python `str` operations the crawlers and the cache rely on:
 * `strip()`, `lower()`, the `in` substring test, `startswith`, `replace` of a
 * single character, `[:n]` prefixes and `sep.join(...)`.
 */
module Strings {

  /** Python's `str.isspace()` for one character: the characters `strip()` removes. */
  predicate IsSpace(c: char) {
    c == ' ' || ('\t' <= c <= '\r') || ('\U{1c}' <= c <= '\U{1f}') ||
    c == '\U{85}' || c == '\U{a0}' || c == '\U{1680}' || ('\U{2000}' <= c <= '\U{200a}') ||
    c == '\U{2028}' || c == '\U{2029}' || c == '\U{202f}' || c == '\U{205f}' || c == '\U{3000}'
  }

  predicate AllSpace(s: string) {
    forall i :: 0 <= i < |s| ==> IsSpace(s[i])
  }

  /** `s` without its leading whitespace. */
  function TrimLeft(s: string): (r: string)
    ensures |r| <= |s|
    ensures r == [] || !IsSpace(r[0])
  {
    if s != [] && IsSpace(s[0]) then TrimLeft(s[1..]) else s
  }

  /** What `TrimLeft` drops is whitespace, and what it keeps is a suffix. */
  lemma {:induction false} TrimLeftDrops(s: string)
    ensures TrimLeft(s) == s[|s| - |TrimLeft(s)|..]
    ensures AllSpace(s[..|s| - |TrimLeft(s)|])
    decreases |s|
  {
    if s != [] && IsSpace(s[0]) {
      TrimLeftDrops(s[1..]);
      var k := |s| - |TrimLeft(s)|;
      assert s[1..][..k - 1] == s[1..k];
      assert s[1..][k - 1..] == s[k..];
    }
  }

  /** `s` without its trailing whitespace. */
  function TrimRight(s: string): (r: string)
    ensures |r| <= |s|
    ensures r == [] || !IsSpace(r[|r| - 1])
  {
    if s != [] && IsSpace(s[|s| - 1]) then TrimRight(s[..|s| - 1]) else s
  }

  /** What `TrimRight` drops is whitespace, and what it keeps is a prefix. */
  lemma {:induction false} TrimRightDrops(s: string)
    ensures TrimRight(s) == s[..|TrimRight(s)|]
    ensures AllSpace(s[|TrimRight(s)|..])
    decreases |s|
  {
    if s != [] && IsSpace(s[|s| - 1]) {
      TrimRightDrops(s[..|s| - 1]);
      var k := |TrimRight(s)|;
      assert s[..|s| - 1][..k] == s[..k];
      assert s[..|s| - 1][k..] == s[k..|s| - 1];
    }
  }

  /** Python's `s.strip()`. */
  function Strip(s: string): (r: string)
    ensures |r| <= |s|
    ensures r == [] || (!IsSpace(r[0]) && !IsSpace(r[|r| - 1]))
    ensures r == [] <==> AllSpace(s)
  {
    var l := TrimLeft(s);
    var r := TrimRight(l);
    TrimLeftDrops(s);
    TrimRightDrops(l);
    assert r == [] ==> AllSpace(s) by {
      if r == [] {
        assert l[|r|..] == l;
        assert s == s[..|s| - |l|] + l;
      }
    }
    assert r != [] ==> !AllSpace(s) by {
      if r != [] {
        assert r[0] == l[0] == s[|s| - |l|];
      }
    }
    r
  }

  /** Stripping twice is stripping once. */
  lemma StripIdempotent(s: string)
    ensures Strip(Strip(s)) == Strip(s)
  {
    var t := Strip(s);
    if t != [] {
      assert TrimLeft(t) == t;
      assert TrimRight(t) == t;
    }
  }

  /** Python's `str.lower()` restricted to the ASCII letters. */
  function LowerChar(c: char): char {
    if 'A' <= c <= 'Z' then (c as int + 32) as char else c
  }

  function Lower(s: string): (r: string)
    ensures |r| == |s|
  {
    seq(|s|, i requires 0 <= i < |s| => LowerChar(s[i]))
  }

  /** `needle` occurs in `hay` at some position: the meaning of Python's `needle in hay`. */
  ghost predicate OccursIn(needle: string, hay: string) {
    exists i :: 0 <= i <= |hay| - |needle| && needle <= hay[i..]
  }

  /** Python's `needle in hay`, by trying each start position in turn. */
  predicate Contains(hay: string, needle: string)
    decreases |hay|
  {
    needle <= hay || (hay != [] && Contains(hay[1..], needle))
  }

  /** The scan agrees with the positional definition, in both directions. */
  lemma {:induction false} ContainsIffOccurs(hay: string, needle: string)
    ensures Contains(hay, needle) <==> OccursIn(needle, hay)
    decreases |hay|
  {
    assert hay[0..] == hay;
    if needle <= hay {
    } else if hay == [] {
    } else {
      ContainsIffOccurs(hay[1..], needle);
      if OccursIn(needle, hay[1..]) {
        var i :| 0 <= i <= |hay[1..]| - |needle| && needle <= hay[1..][i..];
        assert hay[1..][i..] == hay[i + 1..];
      }
      if OccursIn(needle, hay) {
        var i :| 0 <= i <= |hay| - |needle| && needle <= hay[i..];
        assert i != 0;
        assert hay[1..][i - 1..] == hay[i..];
      }
    }
  }

  /** A needle found in a suffix is found in the whole string. */
  lemma {:induction false} ContainsInSuffix(prefix: string, rest: string, needle: string)
    requires Contains(rest, needle)
    ensures Contains(prefix + rest, needle)
    decreases |prefix|
  {
    if prefix == [] {
      assert prefix + rest == rest;
    } else {
      assert (prefix + rest)[1..] == prefix[1..] + rest;
      ContainsInSuffix(prefix[1..], rest, needle);
    }
  }

  predicate StartsWith(s: string, prefix: string) {
    prefix <= s
  }

  /** Python's `s[:n]` for `n >= 0`: the first `n` characters, or all of `s`. */
  function Take(s: string, n: nat): (r: string)
    ensures |r| == if |s| < n then |s| else n
    ensures r <= s
  {
    if |s| <= n then s else s[..n]
  }

  /** Python's `s.replace(old, new)` for single characters. */
  function ReplaceChar(s: string, from: char, to: char): (r: string)
    ensures |r| == |s|
    ensures forall i :: 0 <= i < |s| ==> r[i] == (if s[i] == from then to else s[i])
  {
    seq(|s|, i requires 0 <= i < |s| => if s[i] == from then to else s[i])
  }

  /** Python's `sep.join(pieces)`. */
  function Join(pieces: seq<string>, sep: string): string {
    if pieces == [] then ""
    else if |pieces| == 1 then pieces[0]
    else pieces[0] + sep + Join(pieces[1..], sep)
  }

  /** Joining gives the empty string only when every piece is empty and there is no separator between them. */
  lemma {:induction false} JoinNonEmpty(pieces: seq<string>, sep: string)
    requires exists i :: 0 <= i < |pieces| && pieces[i] != ""
    ensures Join(pieces, sep) != ""
    decreases |pieces|
  {
    if |pieces| > 1 && pieces[0] == "" {
      var i :| 0 <= i < |pieces| && pieces[i] != "";
      assert pieces[1..][i - 1] == pieces[i];
      JoinNonEmpty(pieces[1..], sep);
    }
  }

  predicate IsDigit(c: char) {
    '0' <= c <= '9'
  }

  predicate AllDigits(s: string) {
    forall i :: 0 <= i < |s| ==> IsDigit(s[i])
  }

  /** Python's `int(s)` on a string of ASCII digits. */
  function DecimalValue(s: string): nat
    requires AllDigits(s)
  {
    if s == [] then 0 else 10 * DecimalValue(s[..|s| - 1]) + (s[|s| - 1] as int - '0' as int)
  }

  /** Python's `str(n)` for a natural number. */
  function ShowNat(n: nat): (r: string)
    ensures r != [] && AllDigits(r)
  {
    if n < 10 then [('0' as int + n) as char] else ShowNat(n / 10) + [('0' as int + n % 10) as char]
  }

  /** `int(str(n)) == n`. */
  lemma {:induction false} ShowNatRoundTrip(n: nat)
    ensures DecimalValue(ShowNat(n)) == n
  {
    var s := ShowNat(n);
    if n >= 10 {
      ShowNatRoundTrip(n / 10);
      assert s[..|s| - 1] == ShowNat(n / 10);
    }
  }
}
