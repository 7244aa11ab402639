/**
 * The text operations the FAQ lookup relies on: ASCII lower-casing (what
 * SQLite's LOWER() does without the ICU extension, and what Python's
 * str.lower() does on ASCII input), substring containment, and the
 * <like predicate> of ISO/IEC 9075-2 (SQL Foundation), subclause 8.5, with
 * `%` and `_` as the only special characters because the query uses no
 * ESCAPE clause.
 */
module SqlText {

  /** ASCII lower-casing of one character; every other character is unchanged. */
  function LowerChar(c: char): char {
    if 'A' <= c <= 'Z' then (c as int + 32) as char else c
  }

  /** ASCII upper-casing of one character; every other character is unchanged. */
  function UpperChar(c: char): char {
    if 'a' <= c <= 'z' then (c as int - 32) as char else c
  }

  function Lower(s: string): string {
    seq(|s|, i requires 0 <= i < |s| => LowerChar(s[i]))
  }

  function Upper(s: string): string {
    seq(|s|, i requires 0 <= i < |s| => UpperChar(s[i]))
  }

  /** Lower-casing forgets case: upper-casing first changes nothing. */
  lemma LowerOfUpper(s: string)
    ensures Lower(Upper(s)) == Lower(s)
  {
  }

  /** Lower-casing leaves the two LIKE wildcards alone. */
  lemma LowerKeepsWildcardFree(s: string)
    requires NoWildcards(s)
    ensures NoWildcards(Lower(s))
  {
  }

  /** Neither `%` nor `_` occurs in `s`, so as a LIKE pattern it is literal text. */
  predicate NoWildcards(s: string) {
    forall i :: 0 <= i < |s| ==> s[i] != '%' && s[i] != '_'
  }

  predicate StartsWith(s: string, prefix: string) {
    |prefix| <= |s| && s[..|prefix|] == prefix
  }

  /** `sub` occurs in `s` as a contiguous block (the empty string occurs everywhere). */
  predicate Contains(s: string, sub: string) {
    exists i :: 0 <= i <= |s| && StartsWith(s[i..], sub)
  }

  /**
   * `text LIKE pattern`, case-sensitively and without an escape character:
   * `%` stands for any sequence of zero or more characters, `_` for exactly
   * one character, and every other pattern character for itself.
   * SQLite's own LIKE ignores ASCII case; since the lookup lower-cases both
   * the pattern and the column before comparing, a case-sensitive match on
   * the lower-cased texts gives the same answer.
   */
  function Like(pattern: string, text: string): bool
    decreases |pattern| + |text|
  {
    if |pattern| == 0 then
      |text| == 0
    else if pattern[0] == '%' then
      Like(pattern[1..], text) || (|text| > 0 && Like(pattern, text[1..]))
    else
      |text| > 0 && (pattern[0] == '_' || pattern[0] == text[0]) && Like(pattern[1..], text[1..])
  }

  /** A lone `%` matches every text. */
  lemma {:induction false} LikePercentMatchesAll(text: string)
    ensures Like("%", text)
  {
    if |text| > 0 {
      LikePercentMatchesAll(text[1..]);
    }
  }

  /** A pattern that is literal text followed by `%` matches exactly the texts that begin with it. */
  lemma {:induction false} LikeLiteralThenPercent(lit: string, text: string)
    requires NoWildcards(lit)
    ensures Like(lit + "%", text) <==> StartsWith(text, lit)
  {
    if |lit| == 0 {
      assert lit + "%" == "%";
      LikePercentMatchesAll(text);
    } else {
      var p := lit + "%";
      assert p[0] == lit[0] && p[1..] == lit[1..] + "%";
      assert lit[0] != '%' && lit[0] != '_';
      assert NoWildcards(lit[1..]) by {
        forall i | 0 <= i < |lit[1..]| ensures lit[1..][i] != '%' && lit[1..][i] != '_' {
          assert lit[1..][i] == lit[i + 1];
        }
      }
      if |text| > 0 {
        LikeLiteralThenPercent(lit[1..], text[1..]);
        if StartsWith(text, lit) {
          assert text[1..][..|lit| - 1] == text[..|lit|][1..];
        }
        if text[0] == lit[0] && StartsWith(text[1..], lit[1..]) {
          assert text[..|lit|] == [text[0]] + text[1..][..|lit| - 1];
        }
      }
    }
  }

  /** Any pattern followed by `%` matches every text that begins with the pattern's own characters. */
  lemma {:induction false} LikeSelfThenPercent(p: string, text: string)
    requires StartsWith(text, p)
    ensures Like(p + "%", text)
  {
    if |p| == 0 {
      assert p + "%" == "%";
      LikePercentMatchesAll(text);
    } else {
      var q := p + "%";
      assert q[0] == p[0] && q[1..] == p[1..] + "%";
      assert text[0] == p[0];
      assert StartsWith(text[1..], p[1..]) by {
        assert text[1..][..|p| - 1] == text[..|p|][1..];
      }
      LikeSelfThenPercent(p[1..], text[1..]);
      if p[0] == '%' {
        // the leading `%` consumes the leading `%` of the text, then matches empty
        assert Like(q[1..], text[1..]);
        assert Like(q, text[1..]);
      }
    }
  }

  /** A leading `%` lets the rest of the pattern match any suffix of the text. */
  lemma {:induction false} LikeLeadingPercent(rest: string, text: string)
    ensures Like("%" + rest, text) <==> exists i :: 0 <= i <= |text| && Like(rest, text[i..])
  {
    var p := "%" + rest;
    assert p[0] == '%' && p[1..] == rest;
    if |text| == 0 {
      if Like(p, text) {
        assert Like(rest, text[0..]);
      }
    } else {
      LikeLeadingPercent(rest, text[1..]);
      if Like(p, text) {
        if Like(rest, text) {
          assert Like(rest, text[0..]);
        } else {
          var i :| 0 <= i <= |text[1..]| && Like(rest, text[1..][i..]);
          assert text[1..][i..] == text[i + 1..];
        }
      }
      if exists i :: 0 <= i <= |text| && Like(rest, text[i..]) {
        var i :| 0 <= i <= |text| && Like(rest, text[i..]);
        if i > 0 {
          assert text[1..][i - 1..] == text[i..];
        }
      }
    }
  }

  /** `%lit%` with wildcard-free `lit` is exactly substring containment. */
  lemma LikeSurroundedIsContains(lit: string, text: string)
    requires NoWildcards(lit)
    ensures Like("%" + lit + "%", text) <==> Contains(text, lit)
  {
    assert "%" + lit + "%" == "%" + (lit + "%");
    LikeLeadingPercent(lit + "%", text);
    forall i | 0 <= i <= |text|
      ensures Like(lit + "%", text[i..]) <==> StartsWith(text[i..], lit)
    {
      LikeLiteralThenPercent(lit, text[i..]);
    }
  }

  /** Whatever the pattern holds, `%p%` matches every text that contains `p` literally. */
  lemma ContainsImpliesLikeSurrounded(p: string, text: string)
    requires Contains(text, p)
    ensures Like("%" + p + "%", text)
  {
    assert "%" + p + "%" == "%" + (p + "%");
    var i :| 0 <= i <= |text| && StartsWith(text[i..], p);
    LikeSelfThenPercent(p, text[i..]);
    LikeLeadingPercent(p + "%", text);
  }
}
