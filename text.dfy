/** The string primitives `setup` and `copy_dir_recursive` rely on:
    `str::trim`, `str::starts_with` and `str::eq_ignore_ascii_case`. */
module Text {

  import opened Sequences

  /** Rust's `char::is_whitespace`: the characters with the Unicode
      White_Space property. */
  predicate IsWhitespace(c: char) {
    var n := c as int;
    (0x09 <= n <= 0x0D) || n == 0x20 || n == 0x85 || n == 0xA0 || n == 0x1680
    || (0x2000 <= n <= 0x200A) || n == 0x2028 || n == 0x2029 || n == 0x202F
    || n == 0x205F || n == 0x3000
  }

  predicate AllWhitespace(s: string) {
    forall k :: 0 <= k < |s| ==> IsWhitespace(s[k])
  }

  /** `s` without its leading whitespace. */
  function TrimStart(s: string): (r: string)
    ensures |r| <= |s| && r == s[|s| - |r|..]
    ensures AllWhitespace(s[..|s| - |r|])
    ensures r != [] ==> !IsWhitespace(r[0])
  {
    if s != [] && IsWhitespace(s[0]) then
      var r := TrimStart(s[1..]);
      assert s[..|s| - |r|] == [s[0]] + s[1..][..|s| - 1 - |r|];
      r
    else s
  }

  /** `s` without its trailing whitespace. */
  function TrimEnd(s: string): (r: string)
    ensures |r| <= |s| && r == s[..|r|]
    ensures AllWhitespace(s[|r|..])
    ensures r != [] ==> !IsWhitespace(r[|r| - 1])
  {
    if s != [] && IsWhitespace(s[|s| - 1]) then
      var r := TrimEnd(s[..|s| - 1]);
      assert s[|r|..] == s[..|s| - 1][|r|..] + [s[|s| - 1]];
      r
    else s
  }

  /** `str::trim`: `s` without leading and trailing whitespace. The result is a
      contiguous piece of `s`, everything cut off is whitespace, and the result
      neither starts nor ends with whitespace. */
  function Trim(s: string): (r: string)
    ensures var lead := |s| - |TrimStart(s)|;
      0 <= lead <= lead + |r| <= |s| && r == s[lead..lead + |r|]
      && AllWhitespace(s[..lead]) && AllWhitespace(s[lead + |r|..])
    ensures r != [] ==> !IsWhitespace(r[0]) && !IsWhitespace(r[|r| - 1])
  {
    var t := TrimStart(s);
    var r := TrimEnd(t);
    PrefixOfSuffix(s, t, r);
    r
  }

  lemma {:induction false} TrimStartExact(lead: string, rest: string)
    requires AllWhitespace(lead)
    requires rest == [] || !IsWhitespace(rest[0])
    ensures TrimStart(lead + rest) == rest
    decreases |lead|
  {
    if lead != [] {
      assert (lead + rest)[1..] == lead[1..] + rest;
      TrimStartExact(lead[1..], rest);
    } else {
      assert lead + rest == rest;
    }
  }

  lemma {:induction false} TrimEndExact(rest: string, trail: string)
    requires AllWhitespace(trail)
    requires rest == [] || !IsWhitespace(rest[|rest| - 1])
    ensures TrimEnd(rest + trail) == rest
    decreases |trail|
  {
    if trail != [] {
      assert (rest + trail)[..|rest + trail| - 1] == rest + trail[..|trail| - 1];
      TrimEndExact(rest, trail[..|trail| - 1]);
    } else {
      assert rest + trail == rest;
    }
  }

  /** Trimming is determined by its contract: whitespace around a core that
      neither starts nor ends with whitespace is removed, and nothing else. */
  lemma TrimExact(lead: string, core: string, trail: string)
    requires AllWhitespace(lead) && AllWhitespace(trail)
    requires core != [] ==> !IsWhitespace(core[0]) && !IsWhitespace(core[|core| - 1])
    ensures Trim(lead + core + trail) == core
  {
    if core == [] {
      assert AllWhitespace(lead + trail);
      assert lead + core + trail == (lead + trail) + [];
      TrimStartExact(lead + trail, []);
    } else {
      assert lead + core + trail == lead + (core + trail);
      TrimStartExact(lead, core + trail);
      TrimEndExact(core, trail);
    }
  }

  /** `str::starts_with`. */
  predicate StartsWith(s: string, prefix: string) {
    IsPrefix(prefix, s)
  }

  /** `char::to_ascii_lowercase`: only 'A'..'Z' change. */
  function AsciiLower(c: char): char {
    if 'A' <= c <= 'Z' then (c as int + 32) as char else c
  }

  /** `str::eq_ignore_ascii_case`. Rust compares the UTF-8 bytes after ASCII
      lower-casing; since that only changes single-byte characters, comparing
      character by character is the same relation. */
  predicate EqIgnoreAsciiCase(a: string, b: string) {
    |a| == |b| && forall k :: 0 <= k < |a| ==> AsciiLower(a[k]) == AsciiLower(b[k])
  }
}
