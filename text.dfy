/** Character classes, ASCII case folding, substring search and SQL `LIKE`
    matching, shared by the validators and by the event search. */
module Text {

  predicate IsAsciiUpper(c: char) { 'A' <= c <= 'Z' }
  predicate IsAsciiLower(c: char) { 'a' <= c <= 'z' }
  predicate IsAsciiDigit(c: char) { '0' <= c <= '9' }
  predicate IsAsciiAlnum(c: char) { IsAsciiUpper(c) || IsAsciiLower(c) || IsAsciiDigit(c) }

  /** Python's `str.lower()` restricted to ASCII letters. */
  function LowerChar(c: char): (r: char)
    ensures IsAsciiUpper(c) ==> IsAsciiLower(r)
    ensures !IsAsciiUpper(c) ==> r == c
    ensures !IsAsciiUpper(r)
  {
    if IsAsciiUpper(c) then (c as int + 32) as char else c
  }

  function Lower(s: string): (r: string)
    ensures |r| == |s|
    ensures forall i :: 0 <= i < |s| ==> r[i] == LowerChar(s[i])
  {
    seq(|s|, i requires 0 <= i < |s| => LowerChar(s[i]))
  }

  /** `re.search(r"[...]", s)` for a one-character class. */
  predicate HasUpper(s: string) { exists i :: 0 <= i < |s| && IsAsciiUpper(s[i]) }
  predicate HasLower(s: string) { exists i :: 0 <= i < |s| && IsAsciiLower(s[i]) }
  predicate HasDigit(s: string) { exists i :: 0 <= i < |s| && IsAsciiDigit(s[i]) }

  predicate IsPrefix(p: string, s: string) { |p| <= |s| && s[..|p|] == p }

  predicate OccursAt(p: string, s: string, i: int)
  {
    0 <= i <= |s| - |p| && s[i..i + |p|] == p
  }

  /** Python's `p in s` for strings. */
  predicate IsSubstring(p: string, s: string)
  {
    exists i | 0 <= i <= |s| - |p| :: OccursAt(p, s, i)
  }

  /** Lowercasing a text without ASCII capitals leaves it unchanged. */
  lemma LowerOfNoUpper(s: string)
    requires forall c | c in s :: !IsAsciiUpper(c)
    ensures Lower(s) == s
  {
    assert forall i | 0 <= i < |s| :: s[i] in s;
  }

  lemma LowerConcat(a: string, b: string)
    ensures Lower(a + b) == Lower(a) + Lower(b)
  {
    assert |Lower(a + b)| == |Lower(a) + Lower(b)|;
    forall i | 0 <= i < |a + b|
      ensures Lower(a + b)[i] == (Lower(a) + Lower(b))[i]
    {
      if i < |a| { assert (a + b)[i] == a[i]; } else { assert (a + b)[i] == b[i - |a|]; }
    }
  }

  // ---------------------------------------------------------------------------
  // SQL LIKE / ILIKE patterns: `%` matches any run of characters, `_` exactly one.
  // `Like` reads `\` as an ordinary character; the lemmas below only speak of
  // texts without it, where that and PostgreSQL's escape agree.

  /** Neither wildcard nor PostgreSQL's default `LIKE` escape character `\`,
      so every character of the text stands for itself. */
  predicate NoWildcards(s: string)
  {
    forall i :: 0 <= i < |s| ==> s[i] != '%' && s[i] != '_' && s[i] != '\\'
  }

  predicate Like(t: string, p: string)
    decreases |t| + |p|
  {
    if p == [] then t == []
    else if p[0] == '%' then Like(t, p[1..]) || (t != [] && Like(t[1..], p))
    else if p[0] == '_' then t != [] && Like(t[1..], p[1..])
    else t != [] && t[0] == p[0] && Like(t[1..], p[1..])
  }

  lemma {:induction false} LikeAnything(t: string)
    ensures Like(t, "%")
    decreases |t|
  {
    if t != [] {
      LikeAnything(t[1..]);
    }
  }

  /** Without wildcards, `s%` matches exactly the texts that start with `s`. */
  lemma {:induction false} LikePrefix(t: string, s: string)
    requires NoWildcards(s)
    ensures Like(t, s + "%") <==> IsPrefix(s, t)
    decreases |s|
  {
    if s == [] {
      assert s + "%" == "%";
      LikeAnything(t);
    } else {
      var p := s + "%";
      assert p[0] == s[0] && p[1..] == s[1..] + "%";
      if t != [] {
        LikePrefix(t[1..], s[1..]);
        if IsPrefix(s, t) {
          assert t[1..][..|s| - 1] == t[..|s|][1..];
        }
        if IsPrefix(s[1..], t[1..]) && t[0] == s[0] {
          assert t[..|s|] == [t[0]] + t[1..][..|s| - 1];
        }
      }
    }
  }

  /** A leading `%` lets the rest of the pattern start at any position. */
  lemma {:induction false} LikeLeadingPercent(t: string, q: string)
    ensures Like(t, "%" + q) <==> exists i :: 0 <= i <= |t| && Like(t[i..], q)
    decreases |t|
  {
    var p := "%" + q;
    assert p[0] == '%' && p[1..] == q;
    assert t[0..] == t;
    if t != [] {
      LikeLeadingPercent(t[1..], q);
      if exists i :: 0 <= i <= |t| && Like(t[i..], q) {
        var i :| 0 <= i <= |t| && Like(t[i..], q);
        if i > 0 {
          assert t[1..][i - 1..] == t[i..];
        }
      }
      if exists i :: 0 <= i <= |t[1..]| && Like(t[1..][i..], q) {
        var i :| 0 <= i <= |t[1..]| && Like(t[1..][i..], q);
        assert t[1..][i..] == t[i + 1..];
      }
    }
  }

  lemma LikeAt(t: string, s: string, i: int)
    requires NoWildcards(s) && OccursAt(s, t, i)
    ensures 0 <= i <= |t| && Like(t[i..], s + "%")
  {
    LikePrefix(t[i..], s);
    assert t[i..][..|s|] == t[i..i + |s|];
  }

  /** `ILIKE '%s%'` with a wildcard-free `s` is plain substring search. */
  lemma {:induction false} LikeContains(t: string, s: string)
    requires NoWildcards(s)
    ensures Like(t, "%" + s + "%") <==> IsSubstring(s, t)
  {
    assert "%" + s + "%" == "%" + (s + "%");
    LikeLeadingPercent(t, s + "%");
    if IsSubstring(s, t) {
      var i :| 0 <= i <= |t| - |s| && OccursAt(s, t, i);
      LikeAt(t, s, i);
    }
    if exists i :: 0 <= i <= |t| && Like(t[i..], s + "%") {
      var i :| 0 <= i <= |t| && Like(t[i..], s + "%");
      LikePrefix(t[i..], s);
      assert t[i..][..|s|] == t[i..i + |s|];
      assert OccursAt(s, t, i);
    }
  }

  /** Lowercasing twice is lowercasing once. */
  lemma LowerIdempotent(s: string)
    ensures Lower(Lower(s)) == Lower(s)
  {
    forall i | 0 <= i < |s| ensures Lower(Lower(s))[i] == Lower(s)[i] {
      assert !IsAsciiUpper(Lower(s)[i]);
    }
  }

  /** Lowercasing turns no character into a wildcard. */
  lemma LowerKeepsNoWildcards(s: string)
    requires NoWildcards(s)
    ensures NoWildcards(Lower(s))
  {
  }

  /** PostgreSQL `ILIKE`: `LIKE` with both sides case-folded. */
  predicate ILike(t: string, p: string)
  {
    Like(Lower(t), Lower(p))
  }

  /** `ILIKE '%' || lower(s) || '%'` with a wildcard-free `s` is
      case-insensitive substring search. */
  lemma ILikeContains(t: string, s: string)
    requires NoWildcards(s)
    ensures ILike(t, "%" + Lower(s) + "%") <==> IsSubstring(Lower(s), Lower(t))
  {
    LowerConcat("%" + Lower(s), "%");
    LowerConcat("%", Lower(s));
    LowerOfNoUpper("%");
    LowerIdempotent(s);
    LowerKeepsNoWildcards(s);
    LikeContains(Lower(t), Lower(s));
  }
}
