/**
 * The PHP string built-ins that field_controller.php relies on, restricted to what
 * the controller uses: `strtolower`, the PCRE classes `\s` and `\w`, `trim`,
 * `stripos(...) === 0`, `explode(',', ...)` / `implode(',', ...)` and `empty()`.
 * Strings are byte strings in PHP; here a byte is a `char` below 256 in practice,
 * and only its ASCII meaning matters.
 */
module PhpStrings {
  import opened Wrappers

  /** `strtolower` on one byte: ASCII `A`-`Z` only (locale-independent since PHP 8.2). */
  function LowerChar(c: char): char
  {
    if 'A' <= c <= 'Z' then (c as int + 32) as char else c
  }

  /** `strtolower`. */
  function Lower(s: string): string
  {
    seq(|s|, i requires 0 <= i < |s| => LowerChar(s[i]))
  }

  /** The PCRE class `\s`: space, tab, line feed, vertical tab, form feed, carriage return. */
  predicate IsSpace(c: char)
  {
    c == ' ' || '\t' <= c <= '\r'
  }

  /** The PCRE class `\w` (no locale tables, no UTF mode): ASCII letters, digits and `_`. */
  predicate IsWordChar(c: char)
  {
    'a' <= c <= 'z' || 'A' <= c <= 'Z' || '0' <= c <= '9' || c == '_'
  }

  /** The bytes PHP's `trim` strips by default: space, tab, LF, CR, NUL and vertical tab (not form feed). */
  predicate IsTrimChar(c: char)
  {
    c == ' ' || c == '\t' || c == '\n' || c == '\r' || c == '\0' || c as int == 0x0B
  }

  /** `ltrim` with the default character list. */
  function TrimLeft(s: string): (r: string)
    ensures |r| <= |s| && r == s[|s| - |r|..]
    ensures forall i :: 0 <= i < |s| - |r| ==> IsTrimChar(s[i])
    ensures r == [] || !IsTrimChar(r[0])
  {
    if s != [] && IsTrimChar(s[0]) then TrimLeft(s[1..]) else s
  }

  /** `rtrim` with the default character list. */
  function TrimRight(s: string): (r: string)
    ensures |r| <= |s| && r == s[..|r|]
    ensures forall i :: |r| <= i < |s| ==> IsTrimChar(s[i])
    ensures r == [] || !IsTrimChar(r[|r| - 1])
  {
    if s != [] && IsTrimChar(s[|s| - 1]) then TrimRight(s[..|s| - 1]) else s
  }

  /** `trim` with the default character list. */
  function Trim(s: string): string
  {
    TrimRight(TrimLeft(s))
  }

  /** A text that neither starts nor ends with a trimmed character is left as it is. */
  lemma TrimUnchanged(s: string)
    requires s != [] && !IsTrimChar(s[0]) && !IsTrimChar(s[|s| - 1])
    ensures Trim(s) == s
  {
  }

  /**
   * `stripos(s, p) === 0`: the first case-insensitive occurrence of `p` in `s`
   * starts at offset 0, that is, `s` begins with `p` up to ASCII case.
   */
  predicate StartsWithIgnoringCase(s: string, p: string)
  {
    |p| <= |s| && Lower(s[..|p|]) == Lower(p)
  }

  /** `explode(',', s)`: the comma-separated parts of `s`, always at least one. */
  function Explode(s: string): (parts: seq<string>)
    ensures |parts| >= 1
    ensures forall i :: 0 <= i < |parts| ==> ',' !in parts[i]
  {
    if s == [] then [""]
    else
      var rest := Explode(s[1..]);
      if s[0] == ',' then [""] + rest
      else [[s[0]] + rest[0]] + rest[1..]
  }

  /** `implode(',', parts)`. */
  function Implode(parts: seq<string>): string
  {
    if |parts| == 0 then ""
    else if |parts| == 1 then parts[0]
    else parts[0] + "," + Implode(parts[1..])
  }

  /** Joining the parts again gives back the original string. */
  lemma {:induction false} ImplodeExplode(s: string)
    ensures Implode(Explode(s)) == s
  {
    if s != [] {
      var rest := Explode(s[1..]);
      ImplodeExplode(s[1..]);
      if s[0] == ',' {
        assert Explode(s) == [""] + rest;
        assert (([""] + rest)[1..]) == rest;
      } else {
        var parts := [[s[0]] + rest[0]] + rest[1..];
        assert Explode(s) == parts;
        if |rest| == 1 {
          assert Implode(parts) == [s[0]] + rest[0];
        } else {
          assert parts[1..] == rest[1..];
          assert Implode(rest) == rest[0] + "," + Implode(rest[1..]);
        }
      }
    }
  }

  /** `explode` yields one part more than there are commas. */
  lemma {:induction false} ExplodeCount(s: string)
    ensures |Explode(s)| == multiset(s)[','] + 1
  {
    if s != [] {
      ExplodeCount(s[1..]);
      assert s == [s[0]] + s[1..];
      assert multiset(s) == multiset([s[0]]) + multiset(s[1..]);
    }
  }

  /** In particular `explode` yields more than one part exactly when there is a comma. */
  lemma ExplodeSeveral(s: string)
    ensures |Explode(s)| > 1 <==> ',' in s
  {
    ExplodeCount(s);
    assert ',' in s <==> ',' in multiset(s);
  }

  /**
   * PHP `empty()` on an optional string (unset or null is `None`): true for a missing
   * value, `''` and `'0'`. Its negation is PHP truthiness of a string.
   */
  predicate PhpEmpty(v: Option<string>)
  {
    v.None? || v.value == "" || v.value == "0"
  }
}
