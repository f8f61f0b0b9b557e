/**
  Text semantics the product query relies on, as SQLite gives them: ASCII
  lower-casing (`LOWER`, and the model of Go's `strings.ToLower`), the `LIKE`
  pattern operator, and the BINARY collation used when ordering by name.
*/
module Text {

  predicate IsUpperChar(c: char) {
    'A' <= c <= 'Z'
  }

  function LowerChar(c: char): char {
    if IsUpperChar(c) then (c as int + 32) as char else c
  }

  predicate IsLower(s: string) {
    forall i :: 0 <= i < |s| ==> !IsUpperChar(s[i])
  }

  /** ASCII lower-casing: letters `A`..`Z` become `a`..`z`, all else is kept. */
  function Lower(s: string): (r: string)
    ensures |r| == |s| && IsLower(r)
    ensures forall i :: 0 <= i < |s| ==> r[i] == LowerChar(s[i])
  {
    seq(|s|, i requires 0 <= i < |s| => LowerChar(s[i]))
  }

  predicate IsWildcard(c: char) {
    c == '%' || c == '_'
  }

  predicate NoWildcards(s: string) {
    forall i :: 0 <= i < |s| ==> !IsWildcard(s[i])
  }

  /** Lower-casing neither adds nor removes `LIKE` wildcards. */
  lemma LowerKeepsWildcards(s: string)
    ensures NoWildcards(Lower(s)) <==> NoWildcards(s)
  {
    assert forall i :: 0 <= i < |s| ==> (IsWildcard(Lower(s)[i]) <==> IsWildcard(s[i]));
  }

  /**
    One pattern character against one text character under SQLite's default
    `LIKE`: `_` matches any character, every other character matches up to
    ASCII case.
  */
  predicate CharMatches(p: char, t: char) {
    p == '_' || LowerChar(p) == LowerChar(t)
  }

  /** `t LIKE p` without an ESCAPE clause: `%` matches any run of characters. */
  predicate Like(t: string, p: string)
    decreases |t| + |p|
  {
    if |p| == 0 then |t| == 0
    else if p[0] == '%' then Like(t, p[1..]) || (|t| > 0 && Like(t[1..], p))
    else |t| > 0 && CharMatches(p[0], t[0]) && Like(t[1..], p[1..])
  }

  /** `k` appears in `t` starting at position `i`. */
  predicate OccursAt(k: string, t: string, i: int) {
    0 <= i && i + |k| <= |t| && t[i..i + |k|] == k
  }

  /** `k` is a contiguous piece of `t`. */
  predicate IsSubstring(k: string, t: string) {
    exists i :: 0 <= i <= |t| - |k| && OccursAt(k, t, i)
  }

  /** A lone `%` matches every text. */
  lemma {:induction false} LikeAnyRest(t: string)
    ensures Like(t, "%")
  {
    assert "%"[1..] == "";
    if |t| > 0 {
      LikeAnyRest(t[1..]);
    }
  }

  /** A wildcard-free pattern followed by `%` matches exactly the texts it begins. */
  lemma {:induction false} LikeLiteralPrefix(t: string, k: string)
    requires NoWildcards(k) && IsLower(k) && IsLower(t)
    ensures Like(t, k + "%") <==> OccursAt(k, t, 0)
  {
    var p := k + "%";
    if |k| == 0 {
      assert p == "%";
      LikeAnyRest(t);
      assert t[0..0] == k;
    } else {
      assert p[0] == k[0] && p[1..] == k[1..] + "%";
      assert !IsWildcard(k[0]);
      if |t| > 0 {
        LikeLiteralPrefix(t[1..], k[1..]);
        assert CharMatches(k[0], t[0]) <==> k[0] == t[0];
        assert OccursAt(k, t, 0) <==> t[0] == k[0] && OccursAt(k[1..], t[1..], 0) by {
          if |k| <= |t| {
            assert t[0..|k|] == [t[0]] + t[1..][0..|k| - 1];
            assert k == [k[0]] + k[1..];
          }
        }
      }
    }
  }

  /** An occurrence is either at the front or somewhere in the tail. */
  lemma SubstringStep(k: string, t: string)
    ensures IsSubstring(k, t) <==> OccursAt(k, t, 0) || (|t| > 0 && IsSubstring(k, t[1..]))
  {
    if IsSubstring(k, t) {
      var i :| 0 <= i <= |t| - |k| && OccursAt(k, t, i);
      if i > 0 {
        assert t[1..][i - 1..i - 1 + |k|] == t[i..i + |k|];
        assert OccursAt(k, t[1..], i - 1);
      }
    }
    if |t| > 0 && IsSubstring(k, t[1..]) {
      var i :| 0 <= i <= |t[1..]| - |k| && OccursAt(k, t[1..], i);
      assert t[1..][i..i + |k|] == t[i + 1..i + 1 + |k|];
      assert OccursAt(k, t, i + 1);
    }
    if OccursAt(k, t, 0) {
      assert 0 <= 0 <= |t| - |k|;
    }
  }

  /**
    On lower-cased text, `t LIKE '%' || k || '%'` is substring containment,
    provided the keyword carries no wildcard of its own.
  */
  lemma {:induction false} LikeContains(t: string, k: string)
    requires NoWildcards(k) && IsLower(k) && IsLower(t)
    ensures Like(t, "%" + k + "%") <==> IsSubstring(k, t)
  {
    var p := "%" + k + "%";
    assert p[0] == '%' && p[1..] == k + "%";
    LikeLiteralPrefix(t, k);
    SubstringStep(k, t);
    if |t| > 0 {
      LikeContains(t[1..], k);
    }
  }

  /** The pattern `%%` built from an empty keyword matches every text. */
  lemma LikeEmptyKeyword(t: string)
    ensures Like(t, "%" + "" + "%")
  {
    assert "%" + "" + "%" == "%%";
    assert "%%"[1..] == "%";
    LikeAnyRest(t);
  }

  /**
    SQLite's BINARY collation on text: compare character by character, a proper
    prefix sorts first. On Unicode scalar values this is the byte order of UTF-8.
  */
  predicate LexLeq(a: string, b: string) {
    |a| == 0 || (|b| > 0 && (a[0] < b[0] || (a[0] == b[0] && LexLeq(a[1..], b[1..]))))
  }

  lemma {:induction false} LexTotal(a: string, b: string)
    ensures LexLeq(a, b) || LexLeq(b, a)
  {
    if |a| > 0 && |b| > 0 && a[0] == b[0] {
      LexTotal(a[1..], b[1..]);
    }
  }

  lemma {:induction false} LexTransitive(a: string, b: string, c: string)
    requires LexLeq(a, b) && LexLeq(b, c)
    ensures LexLeq(a, c)
  {
    if |a| > 0 && a[0] == b[0] && b[0] == c[0] {
      LexTransitive(a[1..], b[1..], c[1..]);
    }
  }

  lemma {:induction false} LexAntisymmetric(a: string, b: string)
    requires LexLeq(a, b) && LexLeq(b, a)
    ensures a == b
  {
    if |a| > 0 {
      LexAntisymmetric(a[1..], b[1..]);
      assert a == [a[0]] + a[1..] && b == [b[0]] + b[1..];
    }
  }
}
