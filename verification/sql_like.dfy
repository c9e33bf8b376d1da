/** Pattern matching of the storage engine's case-insensitive LIKE, as the
    library search issues it: both sides are lowered with an ASCII-only
    `lower()` and then compared with LIKE, where `%` matches any run of
    characters, `_` matches exactly one, and there is no escape character.
    Beside the matcher stands the reference the search is meant to be:
    case-insensitive substring containment. */
module SqlLike {

  /** ASCII-only lower-casing of one character; all others are unchanged. */
  function Fold(c: char): char {
    if 'A' <= c <= 'Z' then (c as int + 32) as char else c
  }

  function Lower(s: string): (r: string)
    ensures |r| == |s|
    ensures forall i :: 0 <= i < |s| ==> r[i] == Fold(s[i])
  {
    seq(|s|, i requires 0 <= i < |s| => Fold(s[i]))
  }

  /** `needle` occurs as a contiguous run somewhere in `hay`. */
  ghost predicate IsInfix(needle: string, hay: string) {
    exists i :: 0 <= i <= |hay| && needle <= hay[i..]
  }

  /** The intended search predicate: `q` occurs in `s`, ignoring ASCII case. */
  ghost predicate ContainsIgnoreCase(s: string, q: string) {
    IsInfix(Lower(q), Lower(s))
  }

  /** `q` holds neither LIKE wildcard, so it can only match itself. */
  predicate WildcardFree(q: string) {
    forall i :: 0 <= i < |q| ==> q[i] != '%' && q[i] != '_'
  }

  /** `lower(s) LIKE lower(p)` with no escape character. */
  function Like(s: string, p: string): bool
    decreases |s| + |p|
  {
    if |p| == 0 then |s| == 0
    else if p[0] == '%' then Like(s, p[1..]) || (|s| > 0 && Like(s[1..], p))
    else |s| > 0 && (p[0] == '_' || Fold(s[0]) == Fold(p[0])) && Like(s[1..], p[1..])
  }

  /** The pattern the search builds around a query: `%q%`. */
  function Surround(q: string): (p: string)
    ensures |p| == |q| + 2 && p[0] == '%' && p[|p| - 1] == '%'
    ensures p[1..|p| - 1] == q
  {
    "%" + q + "%"
  }

  lemma LowerSuffix(s: string, i: nat)
    requires i <= |s|
    ensures Lower(s[i..]) == Lower(s)[i..]
  {
  }

  /** A lone `%` matches every string. */
  lemma {:induction false} LikePercentMatchesAll(s: string)
    ensures Like(s, "%")
    decreases |s|
  {
    assert "%"[1..] == "";
    if |s| > 0 {
      LikePercentMatchesAll(s[1..]);
    }
  }

  /** A wildcard-free pattern followed by `%` matches exactly the strings
      that start with it, ignoring case. */
  lemma {:induction false} LikePrefix(s: string, p: string)
    requires WildcardFree(p)
    ensures Like(s, p + "%") <==> Lower(p) <= Lower(s)
    decreases |p|
  {
    if |p| == 0 {
      assert p + "%" == "%";
      LikePercentMatchesAll(s);
    } else {
      var p' := p + "%";
      assert p'[0] == p[0] && p'[1..] == p[1..] + "%";
      assert WildcardFree(p[1..]) by {
        forall i | 0 <= i < |p[1..]| ensures p[1..][i] != '%' && p[1..][i] != '_' {
          assert p[1..][i] == p[i + 1];
        }
      }
      if |s| > 0 {
        LikePrefix(s[1..], p[1..]);
        assert Lower(p) == [Fold(p[0])] + Lower(p[1..]);
        assert Lower(s) == [Fold(s[0])] + Lower(s[1..]);
      }
    }
  }

  /** A leading `%` lets the rest of the pattern match any suffix. */
  lemma {:induction false} LikeLeadingPercent(s: string, r: string)
    ensures Like(s, "%" + r) <==> exists i :: 0 <= i <= |s| && Like(s[i..], r)
    decreases |s|
  {
    var p := "%" + r;
    assert p[0] == '%' && p[1..] == r;
    assert s[0..] == s;
    if |s| > 0 {
      LikeLeadingPercent(s[1..], r);
      if Like(s[1..], p) {
        var i :| 0 <= i <= |s[1..]| && Like(s[1..][i..], r);
        assert s[1..][i..] == s[i + 1..];
      }
      if i :| 0 < i <= |s| && Like(s[i..], r) {
        assert s[1..][i - 1..] == s[i..];
      }
    }
  }

  /** For wildcard-free queries the search pattern `%q%` is exactly
      case-insensitive substring containment. */
  lemma SurroundIsContains(s: string, q: string)
    requires WildcardFree(q)
    ensures Like(s, Surround(q)) <==> ContainsIgnoreCase(s, q)
  {
    assert Surround(q) == "%" + (q + "%");
    LikeLeadingPercent(s, q + "%");
    if Like(s, Surround(q)) {
      var i :| 0 <= i <= |s| && Like(s[i..], q + "%");
      LikePrefix(s[i..], q);
      LowerSuffix(s, i);
    }
    if ContainsIgnoreCase(s, q) {
      var i :| 0 <= i <= |Lower(s)| && Lower(q) <= Lower(s)[i..];
      LowerSuffix(s, i);
      LikePrefix(s[i..], q);
    }
  }

  /** The empty query matches every string. */
  lemma EmptyQueryMatchesAll(s: string)
    ensures Like(s, Surround(""))
  {
    assert Surround("") == "%" + "%";
    LikeLeadingPercent(s, "%");
    LikePercentMatchesAll(s);
    assert s[0..] == s;
  }

  /** Every string matches a pattern made of itself followed by `%`,
      whatever wildcards it holds. */
  lemma {:induction false} LikeSelfPercent(s: string)
    ensures Like(s, s + "%")
    decreases |s|
  {
    if |s| == 0 {
      assert s + "%" == "%";
      LikePercentMatchesAll(s);
    } else {
      var p := s + "%";
      assert p[0] == s[0] && p[1..] == s[1..] + "%";
      LikeSelfPercent(s[1..]);
      if s[0] == '%' {
        assert p == "%" + (s[1..] + "%");
        LikeLeadingPercent(s[1..], s[1..] + "%");
        assert s[1..][0..] == s[1..];
        assert Like(s[1..], p);
      }
    }
  }

  /** Every string is found by a search for itself. */
  lemma SelfSearchMatches(s: string)
    ensures Like(s, Surround(s))
  {
    assert Surround(s) == "%" + (s + "%");
    LikeSelfPercent(s);
    LikeLeadingPercent(s, s + "%");
    assert s[0..] == s;
  }
}
