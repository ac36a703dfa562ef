/**
 * The query safety filter `sanitize_sql` of field_controller.php: the text is
 * lower-cased, every run of `\s` characters becomes one space, and the query is
 * accepted only if no forbidden keyword occurs in it as a whole word, it holds no
 * `;`, and its trimmed text starts with `select`.
 */
module Sanitizer {
  import opened PhpStrings

  /** What one leading character contributes to the collapsed text. */
  function Head(c: char, inRun: bool): string
  {
    if IsSpace(c) then (if inRun then [] else [' ']) else [c]
  }

  /**
   * `preg_replace('/\s+/', ' ', s)`, scanning left to right; `inRun` says whether
   * the character just before `s` was part of a whitespace run already replaced.
   */
  function CollapseFrom(s: string, inRun: bool): string
  {
    if s == [] then [] else Head(s[0], inRun) + CollapseFrom(s[1..], IsSpace(s[0]))
  }

  /** A text in which every whitespace character is a plain space and no two spaces are adjacent. */
  predicate Collapsed(r: string)
  {
    && (forall i :: 0 <= i < |r| && IsSpace(r[i]) ==> r[i] == ' ')
    && (forall i :: 1 <= i < |r| && r[i] == ' ' ==> r[i - 1] != ' ')
  }

  /** Collapsing leaves no whitespace but single spaces, and none at the front inside a run. */
  lemma {:induction false} CollapseShape(s: string, inRun: bool)
    ensures Collapsed(CollapseFrom(s, inRun))
    ensures inRun && CollapseFrom(s, inRun) != [] ==> CollapseFrom(s, inRun)[0] != ' '
  {
    if s != [] {
      CollapseShape(s[1..], IsSpace(s[0]));
    }
  }

  /** Whether a scan that started with `inRun` is inside a whitespace run after reading `s`. */
  function EndsInRun(s: string, inRun: bool): bool
  {
    if s == [] then inRun else EndsInRun(s[1..], IsSpace(s[0]))
  }

  /** `preg_replace('/\s+/', ' ', s)`. */
  function CollapseWhitespace(s: string): string
  {
    CollapseFrom(s, false)
  }

  /** The normalisation step of `sanitize_sql`: `preg_replace('/\s+/', ' ', strtolower($sql))`. */
  function Normalize(sql: string): string
  {
    CollapseWhitespace(Lower(sql))
  }

  /**
   * The pattern `\b<k>\b` matches at offset `i` of `t`. Every forbidden keyword starts
   * and ends with a word character, so the boundary before it is "start of text or a
   * non-word character", and likewise after it.
   */
  predicate WordAt(t: string, k: string, i: int)
  {
    && 0 <= i && i + |k| <= |t|
    && t[i..i + |k|] == k
    && (i == 0 || !IsWordChar(t[i - 1]))
    && (i + |k| == |t| || !IsWordChar(t[i + |k|]))
  }

  /** `preg_match('/\b' . preg_quote(k) . '\b/', t)`. */
  predicate OccursAsWord(t: string, k: string)
  {
    exists i | 0 <= i <= |t| - |k| :: WordAt(t, k, i)
  }

  /** The keyword list of `sanitize_sql`, in the order it tries them. */
  const Forbidden: seq<string> :=
    ["insert", "update", "delete", "drop", "alter", "truncate", "create", "replace", "merge", "grant", "revoke"]

  predicate HasForbiddenWord(t: string)
  {
    exists j | 0 <= j < |Forbidden| :: OccursAsWord(t, Forbidden[j])
  }

  /** The verdict of `sanitize_sql`: the three conditions on the normalised text. */
  predicate IsSafeSql(sql: string)
  {
    var n := Normalize(sql);
    && !HasForbiddenWord(n)
    && ';' !in n
    && StartsWithIgnoringCase(Trim(n), "select")
  }

  /** `sanitize_sql`: tries each forbidden keyword in turn and stops at the first hit. */
  method SanitizeSql(sql: string) returns (ok: bool)
    ensures ok <==> IsSafeSql(sql)
  {
    var normalized := Normalize(sql);
    var i := 0;
    while i < |Forbidden|
      invariant 0 <= i <= |Forbidden|
      invariant forall j :: 0 <= j < i ==> !OccursAsWord(normalized, Forbidden[j])
    {
      if OccursAsWord(normalized, Forbidden[i]) {
        return false;
      }
      i := i + 1;
    }
    if ';' in normalized {
      return false;
    }
    if !StartsWithIgnoringCase(Trim(normalized), "select") {
      return false;
    }
    return true;
  }

  // ---------------------------------------------------------------------------
  // Facts about whitespace collapsing

  lemma CollapseCons(c: char, s: string, inRun: bool)
    ensures CollapseFrom([c] + s, inRun) == Head(c, inRun) + CollapseFrom(s, IsSpace(c))
    ensures EndsInRun([c] + s, inRun) == EndsInRun(s, IsSpace(c))
  {
    assert ([c] + s)[0] == c;
    assert ([c] + s)[1..] == s;
  }

  /** Collapsing a concatenation: the second part continues in the run state the first part ends in. */
  lemma {:induction false} CollapseAppend(x: string, y: string, inRun: bool)
    ensures CollapseFrom(x + y, inRun) == CollapseFrom(x, inRun) + CollapseFrom(y, EndsInRun(x, inRun))
  {
    if x == [] {
      assert x + y == y;
    } else {
      var c, x' := x[0], x[1..];
      var h := Head(c, inRun);
      assert CollapseFrom(x + y, inRun) == h + CollapseFrom(x' + y, IsSpace(c)) by {
        assert (x + y)[0] == c;
        assert (x + y)[1..] == x' + y;
      }
      CollapseAppend(x', y, IsSpace(c));
      var a, b := CollapseFrom(x', IsSpace(c)), CollapseFrom(y, EndsInRun(x', IsSpace(c)));
      assert h + (a + b) == (h + a) + b;
    }
  }

  /** A text without whitespace passes through unchanged and does not end in a run. */
  lemma {:induction false} CollapseNoSpace(s: string, inRun: bool)
    requires forall i :: 0 <= i < |s| ==> !IsSpace(s[i])
    ensures CollapseFrom(s, inRun) == s
    ensures s != [] ==> !EndsInRun(s, inRun)
  {
    if s != [] {
      CollapseNoSpace(s[1..], false);
    }
  }

  /** A nonempty whitespace-only text becomes one space, or nothing inside a run. */
  lemma {:induction false} CollapseAllSpace(s: string, inRun: bool)
    requires s != []
    requires forall i :: 0 <= i < |s| ==> IsSpace(s[i])
    ensures CollapseFrom(s, inRun) == if inRun then [] else [' ']
    ensures EndsInRun(s, inRun)
  {
    if |s| > 1 {
      CollapseAllSpace(s[1..], true);
    }
  }

  lemma {:induction false} EndsInRunLast(s: string, inRun: bool)
    ensures EndsInRun(s, inRun) == if s == [] then inRun else IsSpace(s[|s| - 1])
  {
    if s != [] {
      EndsInRunLast(s[1..], IsSpace(s[0]));
    }
  }

  /** The last character of a collapsed nonempty text: a space for a trailing run, else the text's own last character. */
  lemma {:induction false} CollapseLast(s: string)
    requires s != []
    ensures CollapseWhitespace(s) != []
    ensures CollapseWhitespace(s)[|CollapseWhitespace(s)| - 1] == if IsSpace(s[|s| - 1]) then ' ' else s[|s| - 1]
  {
    var y, c := s[..|s| - 1], s[|s| - 1];
    assert s == y + [c];
    CollapseAppend(y, [c], false);
    EndsInRunLast(y, false);
    if IsSpace(c) && EndsInRun(y, false) {
      CollapseLast(y);
    }
  }

  /** A character that is not whitespace survives collapsing. */
  lemma {:induction false} CollapseKeeps(s: string, inRun: bool, c: char)
    requires !IsSpace(c) && c in s
    ensures c in CollapseFrom(s, inRun)
  {
    if s[0] != c {
      CollapseKeeps(s[1..], IsSpace(s[0]), c);
    }
  }

  lemma {:induction false} CollapseIdempotent(s: string, inRun: bool)
    ensures CollapseFrom(CollapseFrom(s, inRun), inRun) == CollapseFrom(s, inRun)
  {
    if s != [] {
      var r := CollapseFrom(s[1..], IsSpace(s[0]));
      CollapseIdempotent(s[1..], IsSpace(s[0]));
      if IsSpace(s[0]) && !inRun {
        assert CollapseFrom(s, inRun) == [' '] + r;
        assert ([' '] + r)[1..] == r;
      } else if !IsSpace(s[0]) {
        assert CollapseFrom(s, inRun) == [s[0]] + r;
        assert ([s[0]] + r)[0] == s[0];
        assert ([s[0]] + r)[1..] == r;
        assert CollapseFrom([s[0]] + r, inRun) == [s[0]] + CollapseFrom(r, false);
      } else {
        assert CollapseFrom(s, inRun) == [] + r == r;
      }
    }
  }

  lemma LowerAppend(x: string, y: string)
    ensures Lower(x + y) == Lower(x) + Lower(y)
  {
  }

  /** The normalised text of `a + w + b`, when `w` has no whitespace, is made of the normalised pieces. */
  lemma NormalizeAround(a: string, w: string, b: string)
    requires w != []
    requires forall i :: 0 <= i < |w| ==> !IsSpace(w[i])
    ensures Normalize(a + w + b) == Normalize(a) + Lower(w) + Normalize(b)
  {
    var la, lw, lb := Lower(a), Lower(w), Lower(b);
    assert Lower(a + w + b) == la + (lw + lb) by {
      LowerAppend(a + w, b);
      LowerAppend(a, w);
    }
    CollapseAppend(la, lw + lb, false);
    assert CollapseFrom(lw + lb, EndsInRun(la, false)) == lw + CollapseWhitespace(lb) by {
      CollapseAppend(lw, lb, EndsInRun(la, false));
      CollapseNoSpace(lw, EndsInRun(la, false));
    }
  }

  // ---------------------------------------------------------------------------
  // What the filter rejects and accepts

  /**
   * A forbidden keyword written in any letter case, standing as a whole word (the
   * text around it is empty or ends/starts with a non-word character), makes the
   * query unsafe, whatever else the query holds.
   */
  lemma ForbiddenWordRejected(a: string, w: string, b: string, j: nat)
    requires j < |Forbidden| && Lower(w) == Forbidden[j]
    requires a == [] || !IsWordChar(a[|a| - 1])
    requires b == [] || !IsWordChar(b[0])
    ensures !IsSafeSql(a + w + b)
  {
    var k := Forbidden[j];
    var na, nb := Normalize(a), Normalize(b);
    var t := na + k + nb;
    assert Normalize(a + w + b) == t by {
      forall i | 0 <= i < |w| ensures !IsSpace(w[i]) {
        assert LowerChar(w[i]) == k[i];
      }
      NormalizeAround(a, w, b);
    }
    assert na == [] || !IsWordChar(na[|na| - 1]) by {
      if a != [] {
        CollapseLast(Lower(a));
      }
    }
    assert nb == [] || !IsWordChar(nb[0]) by {
      if b != [] {
        assert Lower(b)[0] == LowerChar(b[0]);
      }
    }
    assert WordAt(t, k, |na|) by {
      assert t[|na|..|na| + |k|] == k;
      assert |na| == 0 || t[|na| - 1] == na[|na| - 1];
      assert |nb| == 0 || t[|na| + |k|] == nb[0];
    }
    assert OccursAsWord(t, k);
  }

  /** A `;` anywhere in the query makes it unsafe. */
  lemma SemicolonRejected(sql: string)
    requires ';' in sql
    ensures !IsSafeSql(sql)
  {
    var i :| 0 <= i < |sql| && sql[i] == ';';
    assert Lower(sql)[i] == ';';
    CollapseKeeps(Lower(sql), false, ';');
  }

  /** A non-word character inside the span starting at `i` rules out a whole-word match of `k` there. */
  lemma NonWordInside(t: string, k: string, i: int, p: int)
    requires forall j :: 0 <= j < |k| ==> IsWordChar(k[j])
    requires 0 <= i <= p < i + |k| <= |t| && !IsWordChar(t[p])
    ensures !WordAt(t, k, i)
  {
    assert t[i..i + |k|][p - i] == t[p];
  }

  /** A match that ends strictly before the end of `x` is a match in `x` alone. */
  lemma WordAtPrefix(x: string, y: string, k: string, i: int)
    requires 0 <= i && i + |k| < |x|
    ensures WordAt(x + y, k, i) == WordAt(x, k, i)
  {
    var t := x + y;
    assert t[i..i + |k|] == x[i..i + |k|];
    assert i > 0 ==> t[i - 1] == x[i - 1];
    assert t[i + |k|] == x[i + |k|];
  }

  /** A match that starts strictly after the start of `y` is a match in `y` alone. */
  lemma WordAtSuffix(x: string, y: string, k: string, i: int)
    requires |x| < i && i + |k| <= |x| + |y|
    ensures WordAt(x + y, k, i) == WordAt(y, k, i - |x|)
  {
    var t, e := x + y, i + |k|;
    assert t[i..e] == y[i - |x|..e - |x|];
    assert t[i - 1] == y[i - 1 - |x|];
    assert e < |t| ==> t[e] == y[e - |x|];
  }

  /**
   * A keyword inside a longer identifier is not a whole-word occurrence: if the
   * identifier `w` (word characters only, different from `k`) stands between
   * non-word characters, and `k` is not a whole word of the text on either side,
   * it is not a whole word of the combined text either.
   */
  lemma IdentifierNotWord(a: string, w: string, b: string, k: string)
    requires k != [] && forall i :: 0 <= i < |k| ==> IsWordChar(k[i])
    requires w != [] && w != k && forall i :: 0 <= i < |w| ==> IsWordChar(w[i])
    requires a == [] || !IsWordChar(a[|a| - 1])
    requires b == [] || !IsWordChar(b[0])
    requires !OccursAsWord(a, k) && !OccursAsWord(b, k)
    ensures !OccursAsWord(a + w + b, k)
  {
    var t := a + w + b;
    var p, q := |a|, |a| + |w|;
    assert t == a + (w + b);
    forall i | 0 <= i <= |t| - |k| ensures !WordAt(t, k, i) {
      var e := i + |k|;
      if e < p {
        WordAtPrefix(a, w + b, k, i);
      } else if i < p {
        assert t[p - 1] == a[p - 1];
        NonWordInside(t, k, i, p - 1);
      } else if i < q && e <= q {
        if i > p {
          assert t[i - 1] == w[i - 1 - p];
        } else if e < q {
          assert t[e] == w[e - p];
        } else {
          assert t[i..e] == w;
        }
      } else if i <= q {
        assert t[q] == b[0];
        NonWordInside(t, k, i, q);
      } else {
        WordAtSuffix(a + w, b, k, i);
      }
    }
  }

  /** Normalising twice is the same as normalising once. */
  lemma NormalizeIdempotent(sql: string)
    ensures Normalize(Normalize(sql)) == Normalize(sql)
  {
    var n := Normalize(sql);
    assert Lower(n) == n by {
      forall i | 0 <= i < |n| ensures LowerChar(n[i]) == n[i] {
        CollapseChars(Lower(sql), false, i);
      }
    }
    CollapseIdempotent(Lower(sql), false);
  }

  /** Every character of a collapsed text is a space or a character of the input. */
  lemma {:induction false} CollapseChars(s: string, inRun: bool, i: nat)
    requires i < |CollapseFrom(s, inRun)|
    ensures CollapseFrom(s, inRun)[i] == ' ' || CollapseFrom(s, inRun)[i] in s
  {
    var r := CollapseFrom(s, inRun);
    if IsSpace(s[0]) {
      if inRun {
        CollapseChars(s[1..], true, i);
      } else if i > 0 {
        CollapseChars(s[1..], true, i - 1);
      }
    } else if i > 0 {
      CollapseChars(s[1..], false, i - 1);
    }
  }

  /** The verdict on a query and on its normalised text agree. */
  lemma SafeUnderNormalize(sql: string)
    ensures IsSafeSql(Normalize(sql)) == IsSafeSql(sql)
  {
    NormalizeIdempotent(sql);
  }

  /** Two queries that differ only in the letter case of their characters get the same verdict. */
  lemma SafeIgnoresCase(sql1: string, sql2: string)
    requires |sql1| == |sql2|
    requires forall i :: 0 <= i < |sql1| ==> LowerChar(sql1[i]) == LowerChar(sql2[i])
    ensures IsSafeSql(sql1) == IsSafeSql(sql2)
  {
    assert Lower(sql1) == Lower(sql2);
  }

  /** The normalised text around a whitespace run depends only on the text on either side. */
  lemma NormalizeAroundSpace(a: string, s: string, b: string)
    requires s != [] && forall i :: 0 <= i < |s| ==> IsSpace(s[i])
    ensures Normalize(a + s + b) ==
            Normalize(a) + (if EndsInRun(Lower(a), false) then [] else [' ']) + CollapseFrom(Lower(b), true)
  {
    var la, lb := Lower(a), Lower(b);
    var g := EndsInRun(la, false);
    assert Lower(a + s + b) == la + (s + lb) by {
      assert Lower(s) == s;
      LowerAppend(a + s, b);
      LowerAppend(a, s);
    }
    CollapseAppend(la, s + lb, false);
    assert CollapseFrom(s + lb, g) == (if g then [] else [' ']) + CollapseFrom(lb, true) by {
      CollapseAppend(s, lb, g);
      CollapseAllSpace(s, g);
    }
  }

  /** Replacing one whitespace run by another, of any length or kind, does not change the verdict. */
  lemma SafeIgnoresWhitespaceRuns(a: string, s1: string, s2: string, b: string)
    requires s1 != [] && forall i :: 0 <= i < |s1| ==> IsSpace(s1[i])
    requires s2 != [] && forall i :: 0 <= i < |s2| ==> IsSpace(s2[i])
    ensures Normalize(a + s1 + b) == Normalize(a + s2 + b)
    ensures IsSafeSql(a + s1 + b) == IsSafeSql(a + s2 + b)
  {
    NormalizeAroundSpace(a, s1, b);
    NormalizeAroundSpace(a, s2, b);
  }

  /** A nonempty run of word characters. */
  predicate IsIdentifier(w: string)
  {
    w != [] && forall i :: 0 <= i < |w| ==> IsWordChar(w[i])
  }

  /** Identifiers separated by single spaces. */
  function JoinWords(words: seq<string>): string
  {
    if |words| == 0 then ""
    else if |words| == 1 then words[0]
    else words[0] + " " + JoinWords(words[1..])
  }

  /** A leading space neither creates nor hides a whole-word match. */
  lemma SpaceBefore(r: string, k: string)
    requires IsIdentifier(k) && !OccursAsWord(r, k)
    ensures !OccursAsWord(" " + r, k)
  {
    var t := " " + r;
    forall i | 0 <= i <= |t| - |k| ensures !WordAt(t, k, i) {
      if i == 0 {
        NonWordInside(t, k, 0, 0);
      } else if i == 1 {
        var e := 1 + |k|;
        assert t[1..] == r;
        assert t[1..e] == t[1..][..|k|] == r[..|k|];
        if e < |t| {
          assert t[e] == r[|k|];
        }
        assert !WordAt(r, k, 0);
      } else {
        WordAtSuffix(" ", r, k, i);
      }
    }
  }

  /**
   * In a text of space-separated identifiers, a keyword is a whole word only as one
   * of the identifiers: if none of them equals `k`, then `k` is not a whole word.
   */
  lemma {:induction false} KeywordOnlyAsIdentifier(words: seq<string>, k: string)
    requires IsIdentifier(k)
    requires forall i :: 0 <= i < |words| ==> IsIdentifier(words[i]) && words[i] != k
    ensures !OccursAsWord(JoinWords(words), k)
  {
    if |words| == 1 {
      IdentifierNotWord("", words[0], "", k);
      assert "" + words[0] + "" == words[0];
    } else if |words| > 1 {
      var rest := JoinWords(words[1..]);
      KeywordOnlyAsIdentifier(words[1..], k);
      SpaceBefore(rest, k);
      IdentifierNotWord("", words[0], " " + rest, k);
      assert "" + words[0] + (" " + rest) == words[0] + " " + rest;
    }
  }

  /** Every forbidden keyword is an identifier. */
  lemma ForbiddenAreIdentifiers()
    ensures forall j :: 0 <= j < |Forbidden| ==> IsIdentifier(Forbidden[j])
  {
  }

  /** An identifier without upper-case letters. */
  predicate IsLowerIdentifier(w: string)
  {
    IsIdentifier(w) && forall i :: 0 <= i < |w| ==> !('A' <= w[i] <= 'Z')
  }

  /**
   * Joined lower-case identifiers start with the first one, end with a word
   * character and hold only lower-case word characters and spaces.
   */
  lemma {:induction false} JoinWordsShape(words: seq<string>)
    requires |words| >= 1 && forall i :: 0 <= i < |words| ==> IsLowerIdentifier(words[i])
    ensures var t := JoinWords(words);
            && |t| >= |words[0]| > 0 && t[..|words[0]|] == words[0]
            && IsWordChar(t[|t| - 1])
            && forall i :: 0 <= i < |t| ==> (IsWordChar(t[i]) && !('A' <= t[i] <= 'Z')) || t[i] == ' '
  {
    if |words| > 1 {
      JoinWordsShape(words[1..]);
      var rest := JoinWords(words[1..]);
      var t := words[0] + " " + rest;
      assert JoinWords(words) == t;
      assert t[..|words[0]|] == words[0];
      assert t[|t| - 1] == rest[|rest| - 1];
      forall i | 0 <= i < |t| ensures (IsWordChar(t[i]) && !('A' <= t[i] <= 'Z')) || t[i] == ' ' {
        if i > |words[0]| {
          assert t[i] == rest[i - |words[0]| - 1];
        }
      }
    }
  }

  /** Joined identifiers pass through whitespace collapsing unchanged. */
  lemma {:induction false} CollapseJoinWords(words: seq<string>, inRun: bool)
    requires |words| >= 1 && forall i :: 0 <= i < |words| ==> IsIdentifier(words[i])
    ensures CollapseFrom(JoinWords(words), inRun) == JoinWords(words)
  {
    var w := words[0];
    CollapseNoSpace(w, inRun);
    if |words| > 1 {
      var rest := JoinWords(words[1..]);
      assert JoinWords(words) == w + (" " + rest);
      CollapseAppend(w, " " + rest, inRun);
      CollapseCons(' ', rest, false);
      CollapseJoinWords(words[1..], true);
    }
  }

  /** `select` followed by lower-case identifiers that are not forbidden keywords. */
  predicate SelectList(words: seq<string>)
  {
    && |words| >= 1 && words[0] == "select"
    && forall i :: 0 <= i < |words| ==> IsLowerIdentifier(words[i]) && words[i] !in Forbidden
  }

  /**
   * `select` followed by lower-case identifiers, separated by single spaces, none of
   * them a forbidden keyword, is safe, even when an identifier contains one
   * (`select updated_at from t`).
   */
  lemma SelectOfIdentifiersAccepted(words: seq<string>)
    requires SelectList(words)
    ensures IsSafeSql(JoinWords(words))
  {
    SelectJoinedChecks(words);
    SafeJoined(words);
  }

  /** The three checks of `sanitize_sql`, on the joined text itself. */
  lemma SelectJoinedChecks(words: seq<string>)
    requires SelectList(words)
    ensures var t := JoinWords(words); !HasForbiddenWord(t) && ';' !in t && StartsWithIgnoringCase(Trim(t), "select")
  {
    JoinedNoForbidden(words);
    JoinedSelect(words);
  }

  lemma SafeJoined(words: seq<string>)
    requires |words| >= 1 && forall i :: 0 <= i < |words| ==> IsLowerIdentifier(words[i])
    requires var t := JoinWords(words); !HasForbiddenWord(t) && ';' !in t && StartsWithIgnoringCase(Trim(t), "select")
    ensures IsSafeSql(JoinWords(words))
  {
    JoinedNormalized(words);
  }

  lemma JoinedNormalized(words: seq<string>)
    requires |words| >= 1 && forall i :: 0 <= i < |words| ==> IsLowerIdentifier(words[i])
    ensures Normalize(JoinWords(words)) == JoinWords(words)
  {
    var t := JoinWords(words);
    JoinWordsShape(words);
    assert Lower(t) == t;
    CollapseJoinWords(words, false);
  }

  lemma JoinedNoForbidden(words: seq<string>)
    requires forall i :: 0 <= i < |words| ==> IsIdentifier(words[i]) && words[i] !in Forbidden
    ensures !HasForbiddenWord(JoinWords(words))
  {
    ForbiddenAreIdentifiers();
    forall j | 0 <= j < |Forbidden| ensures !OccursAsWord(JoinWords(words), Forbidden[j]) {
      KeywordOnlyAsIdentifier(words, Forbidden[j]);
    }
  }

  lemma JoinedSelect(words: seq<string>)
    requires |words| >= 1 && words[0] == "select"
    requires forall i :: 0 <= i < |words| ==> IsLowerIdentifier(words[i])
    ensures ';' !in JoinWords(words)
    ensures StartsWithIgnoringCase(Trim(JoinWords(words)), "select")
  {
    var t := JoinWords(words);
    JoinWordsShape(words);
    forall i | 0 <= i < |t| ensures t[i] != ';' {
      assert IsWordChar(t[i]) || t[i] == ' ';
    }
    assert t[0] == t[..6][0] == 's';
    TrimUnchanged(t);
  }

  lemma UpdatedAtAccepted()
    ensures IsSafeSql(JoinWords(["select", "updated_at", "from", "t"]))
  {
    var words := ["select", "updated_at", "from", "t"];
    assert forall i :: 0 <= i < |words| ==> IsLowerIdentifier(words[i]);
    SelectOfIdentifiersAccepted(words);
  }
}
