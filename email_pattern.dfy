/** The address pattern `^[a-zA-Z0-9_.+-]+@[a-zA-Z0-9-]+\.[a-zA-Z0-9-.]+$` shared by
    the ORM and the request-schema email validators, under Python's `re.match`
    (where `$` also matches just before a final newline). */
module EmailPattern {
  import opened Text

  predicate LocalChar(c: char) { IsAsciiAlnum(c) || c == '_' || c == '.' || c == '+' || c == '-' }
  predicate LabelChar(c: char) { IsAsciiAlnum(c) || c == '-' }
  predicate TailChar(c: char) { IsAsciiAlnum(c) || c == '-' || c == '.' }

  predicate AllLocal(s: string) { forall i :: 0 <= i < |s| ==> LocalChar(s[i]) }
  predicate AllLabel(s: string) { forall i :: 0 <= i < |s| ==> LabelChar(s[i]) }
  predicate AllTail(s: string) { forall i :: 0 <= i < |s| ==> TailChar(s[i]) }

  /** `s` splits as local-part `@` label `.` tail, each part non-empty and drawn
      from its character class: the regular expression read as a definition. */
  predicate ShapedAt(s: string, i: int, j: int)
  {
    0 < i && i + 1 < j && j + 1 < |s| && s[i] == '@' && s[j] == '.'
    && AllLocal(s[..i]) && AllLabel(s[i + 1..j]) && AllTail(s[j + 1..])
  }

  ghost predicate Shaped(s: string)
  {
    exists i, j :: ShapedAt(s, i, j)
  }

  /** What `re.match` accepts: the shape, optionally followed by one newline. */
  ghost predicate RegexAccepts(s: string)
  {
    Shaped(s) || (|s| > 0 && s[|s| - 1] == '\n' && Shaped(s[..|s| - 1]))
  }

  /** Position of the first `c` in `s` at or after `from`, or `|s|`. */
  function IndexFrom(s: string, c: char, from: nat): (r: nat)
    requires from <= |s|
    ensures from <= r <= |s|
    ensures r < |s| ==> s[r] == c
    ensures forall k | from <= k < r :: s[k] != c
    decreases |s| - from
  {
    if from == |s| then |s|
    else if s[from] == c then from
    else IndexFrom(s, c, from + 1)
  }

  /** Scanning check of the shape: the `@` must be the first one and the `.`
      the first one after it, since neither class admits them earlier. */
  predicate ShapeMatches(s: string)
  {
    var i := IndexFrom(s, '@', 0);
    i < |s| && (var j := IndexFrom(s, '.', i + 1); j < |s| && ShapedAt(s, i, j))
  }

  /** `re.match(pattern, s) is not None`. */
  predicate Matches(s: string)
  {
    if |s| > 0 && s[|s| - 1] == '\n' then ShapeMatches(s[..|s| - 1]) else ShapeMatches(s)
  }

  /** Neither `@` nor `.` occurs in the local part, and `@` not in the label. */
  lemma ShapedSeparators(s: string, i: int, j: int)
    requires ShapedAt(s, i, j)
    ensures forall k | 0 <= k < i :: s[k] != '@'
    ensures forall k | i < k < j :: s[k] != '.' && s[k] != '@'
    ensures forall k | j < k < |s| :: s[k] != '@' && s[k] != '\n'
  {
    forall k | 0 <= k < i ensures s[k] != '@' {
      assert s[..i][k] == s[k];
    }
    forall k | i < k < j ensures s[k] != '.' && s[k] != '@' {
      assert s[i + 1..j][k - i - 1] == s[k];
    }
    forall k | j < k < |s| ensures s[k] != '@' && s[k] != '\n' {
      assert s[j + 1..][k - j - 1] == s[k];
    }
  }

  lemma ShapeMatchesIff(s: string)
    ensures ShapeMatches(s) <==> Shaped(s)
  {
    if Shaped(s) {
      var i, j :| ShapedAt(s, i, j);
      ShapedSeparators(s, i, j);
      assert IndexFrom(s, '@', 0) == i;
      assert IndexFrom(s, '.', i + 1) == j;
    }
  }

  /** The scanning matcher decides exactly the regular expression. */
  lemma {:induction false} MatchesIff(s: string)
    ensures Matches(s) <==> RegexAccepts(s)
  {
    ShapeMatchesIff(s);
    if |s| > 0 && s[|s| - 1] == '\n' {
      ShapeMatchesIff(s[..|s| - 1]);
      if Shaped(s) {
        var i, j :| ShapedAt(s, i, j);
        ShapedSeparators(s, i, j);
      }
    }
  }

  /** The text after the first `@` and before any second one: `s.split("@")[1]`
      when `s` contains an `@`. */
  function Domain(s: string): (d: string)
    ensures |d| <= |s|
  {
    var i := IndexFrom(s, '@', 0);
    if i == |s| then "" else s[i + 1..IndexFrom(s, '@', i + 1)]
  }

  lemma DomainOfShaped(s: string, i: int, j: int)
    requires ShapedAt(s, i, j)
    ensures Domain(s) == s[i + 1..]
  {
    ShapedSeparators(s, i, j);
    assert IndexFrom(s, '@', 0) == i;
    assert IndexFrom(s, '@', i + 1) == |s|;
  }

  /** Lowercasing keeps an address in the language: the classes are closed
      under ASCII case folding. */
  lemma {:induction false} ShapedLower(s: string, i: int, j: int)
    requires ShapedAt(s, i, j)
    ensures ShapedAt(Lower(s), i, j)
  {
    var t := Lower(s);
    forall k | 0 <= k < i ensures LocalChar(t[k]) {
      assert s[..i][k] == s[k];
    }
    forall k | i < k < j ensures LabelChar(t[k]) {
      assert s[i + 1..j][k - i - 1] == s[k];
    }
    forall k | j < k < |s| ensures TailChar(t[k]) {
      assert s[j + 1..][k - j - 1] == s[k];
    }

  }

  /** Python's `$` also matches just before a final newline, so an address
      followed by one newline is accepted (`ann@mail.co\n`, for one). */
  lemma TrailingNewlineAccepted()
    ensures Matches("ann@mail.co\n")
  {
    var s := "ann@mail.co";
    assert ShapedAt(s, 3, 8);
    ShapeMatchesIff(s);
    assert ("ann@mail.co\n")[..|"ann@mail.co\n"| - 1] == s;
  }
}
