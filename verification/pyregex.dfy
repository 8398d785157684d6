/** The fragment of regular expressions that the validators use, with the meaning
    Python's `re` module (and, for `EndOfText`, the pattern dialect of the
    validation library) gives it. A pattern matches `s[i..j]` in the sense of
    `Matches`; `re.match` succeeds when the pattern matches some prefix of the
    subject. This is the reference the hand-written predicates are proved
    equivalent to. */
module PyRegex {

  /** `str.isspace()`: the characters `\s` stands for in a `str` pattern. */
  predicate IsSpace(c: char) {
    c == ' ' || '\t' <= c <= '\r' || '\U{1C}' <= c <= '\U{1F}' || c == '\U{85}' || c == '\U{A0}'
    || c == '\U{1680}' || '\U{2000}' <= c <= '\U{200A}' || c == '\U{2028}' || c == '\U{2029}'
    || c == '\U{202F}' || c == '\U{205F}' || c == '\U{3000}'
  }

  /** `\w` restricted to ASCII: letters, digits and the underscore. */
  predicate IsWordChar(c: char) {
    'a' <= c <= 'z' || 'A' <= c <= 'Z' || '0' <= c <= '9' || c == '_'
  }

  /** A single-character class. */
  datatype CharClass =
    | Is(c: char)                      // a literal character
    | AnyButNewline                    // `.` without DOTALL
    | NotSpace                         // `[^\s]`
    | NotSpaceNorIn(excluded: string)  // `[^\s...]` with the listed extra characters
    | WordOrIn(extra: string)          // `[\w...]` with the listed extra characters

  predicate InClass(cc: CharClass, c: char) {
    match cc
    case Is(d) => c == d
    case AnyButNewline => c != '\n'
    case NotSpace => !IsSpace(c)
    case NotSpaceNorIn(ex) => !IsSpace(c) && c !in ex
    case WordOrIn(extra) => IsWordChar(c) || c in extra
  }

  datatype Re =
    | Start             // `^` without MULTILINE: position 0 only
    | End               // `$` in Python's `re`: the end, or just before a newline that ends the subject
    | EndOfText         // `$` of the validation library's pattern engine: the end only
    | Text(w: string)   // a run of literal characters
    | Class(cc: CharClass)
    | Cat(a: Re, b: Re)
    | Opt(a: Re)        // `a?`
    | Star(a: Re)       // `a*`

  /** `r` matches the slice `s[i..j]` of the subject `s`. */
  ghost predicate Matches(r: Re, s: string, i: nat, j: nat)
    requires i <= j <= |s|
    decreases r, j - i
  {
    match r
    case Start => i == j == 0
    case End => i == j && (j == |s| || (j == |s| - 1 && s[j] == '\n'))
    case EndOfText => i == j == |s|
    case Text(w) => j - i == |w| && s[i..j] == w
    case Class(cc) => j == i + 1 && InClass(cc, s[i])
    case Cat(a, b) => exists k :: i <= k <= j && Matches(a, s, i, k) && Matches(b, s, k, j)
    case Opt(a) => i == j || Matches(a, s, i, j)
    case Star(a) => i == j || exists k :: i < k <= j && Matches(a, s, i, k) && Matches(r, s, k, j)
  }

  /** `r` matches some slice of `s` that starts at `i`. */
  ghost predicate MatchesFrom(r: Re, s: string, i: nat)
    requires i <= |s|
  {
    exists j :: i <= j <= |s| && Matches(r, s, i, j)
  }

  /** `re.match(r, s)` is not `None`. */
  ghost predicate ReMatch(r: Re, s: string) {
    MatchesFrom(r, s, 0)
  }

  /** A starred class matches exactly the slices made only of its characters. */
  lemma {:induction false} StarClass(cc: CharClass, s: string, i: nat, j: nat)
    requires i <= j <= |s|
    ensures Matches(Star(Class(cc)), s, i, j) <==> forall k :: i <= k < j ==> InClass(cc, s[k])
    decreases j - i
  {
    if i < j {
      StarClass(cc, s, i + 1, j);
      if InClass(cc, s[i]) && Matches(Star(Class(cc)), s, i + 1, j) {
        assert Matches(Class(cc), s, i, i + 1);
        assert Matches(Star(Class(cc)), s, i, j);
      }
      if Matches(Star(Class(cc)), s, i, j) {
        assert Matches(Star(Class(cc)), s, i, j);
        var k :| i < k <= j && Matches(Class(cc), s, i, k) && Matches(Star(Class(cc)), s, k, j);
        assert k == i + 1;
      }
    }
  }

  /** A class followed by `x` matches from `i` when `s[i]` is in the class and `x` matches from `i + 1`. */
  lemma ClassThen(cc: CharClass, x: Re, s: string, i: nat)
    requires i <= |s|
    ensures MatchesFrom(Cat(Class(cc), x), s, i) <==> i < |s| && InClass(cc, s[i]) && MatchesFrom(x, s, i + 1)
  {
    if MatchesFrom(Cat(Class(cc), x), s, i) {
      var j :| i <= j <= |s| && Matches(Cat(Class(cc), x), s, i, j);
      assert Matches(Cat(Class(cc), x), s, i, j);
      var k :| i <= k <= j && Matches(Class(cc), s, i, k) && Matches(x, s, k, j);
      assert k == i + 1;
    }
    if i < |s| && InClass(cc, s[i]) && MatchesFrom(x, s, i + 1) {
      var j :| i + 1 <= j <= |s| && Matches(x, s, i + 1, j);
      assert Matches(Class(cc), s, i, i + 1);
      assert Matches(Cat(Class(cc), x), s, i, j);
    }
  }

  /** A literal run followed by `x` matches from `i` when the run occurs at `i` and `x` matches after it. */
  lemma TextThen(w: string, x: Re, s: string, i: nat)
    requires i <= |s|
    ensures MatchesFrom(Cat(Text(w), x), s, i)
        <==> i + |w| <= |s| && s[i..i + |w|] == w && MatchesFrom(x, s, i + |w|)
  {
    if MatchesFrom(Cat(Text(w), x), s, i) {
      var j :| i <= j <= |s| && Matches(Cat(Text(w), x), s, i, j);
      assert Matches(Cat(Text(w), x), s, i, j);
      var k :| i <= k <= j && Matches(Text(w), s, i, k) && Matches(x, s, k, j);
      assert k == i + |w|;
    }
    if i + |w| <= |s| && s[i..i + |w|] == w && MatchesFrom(x, s, i + |w|) {
      var j :| i + |w| <= j <= |s| && Matches(x, s, i + |w|, j);
      assert Matches(Text(w), s, i, i + |w|);
      assert Matches(Cat(Text(w), x), s, i, j);
    }
  }

  /** An optional class followed by `x`: either `x` matches right away, or after one character of the class. */
  lemma OptClassThen(cc: CharClass, x: Re, s: string, i: nat)
    requires i <= |s|
    ensures MatchesFrom(Cat(Opt(Class(cc)), x), s, i)
        <==> MatchesFrom(x, s, i) || (i < |s| && InClass(cc, s[i]) && MatchesFrom(x, s, i + 1))
  {
    if MatchesFrom(Cat(Opt(Class(cc)), x), s, i) {
      var j :| i <= j <= |s| && Matches(Cat(Opt(Class(cc)), x), s, i, j);
      assert Matches(Cat(Opt(Class(cc)), x), s, i, j);
      var k :| i <= k <= j && Matches(Opt(Class(cc)), s, i, k) && Matches(x, s, k, j);
      if k == i {
        assert MatchesFrom(x, s, i);
      } else {
        assert Matches(Class(cc), s, i, k);
        assert MatchesFrom(x, s, i + 1);
      }
    }
    if MatchesFrom(x, s, i) {
      var j :| i <= j <= |s| && Matches(x, s, i, j);
      assert Matches(Opt(Class(cc)), s, i, i);
      assert Matches(Cat(Opt(Class(cc)), x), s, i, j);
    }
    if i < |s| && InClass(cc, s[i]) && MatchesFrom(x, s, i + 1) {
      var j :| i + 1 <= j <= |s| && Matches(x, s, i + 1, j);
      assert Matches(Class(cc), s, i, i + 1);
      assert Matches(Opt(Class(cc)), s, i, i + 1);
      assert Matches(Cat(Opt(Class(cc)), x), s, i, j);
      assert MatchesFrom(Cat(Opt(Class(cc)), x), s, i);
    }
  }

  /** `^` followed by `x` matches from the start exactly when `x` does. */
  lemma StartThen(x: Re, s: string)
    ensures ReMatch(Cat(Start, x), s) <==> ReMatch(x, s)
  {
    if ReMatch(Cat(Start, x), s) {
      var j :| 0 <= j <= |s| && Matches(Cat(Start, x), s, 0, j);
      assert Matches(Cat(Start, x), s, 0, j);
      var k :| 0 <= k <= j && Matches(Start, s, 0, k) && Matches(x, s, k, j);
    }
    if ReMatch(x, s) {
      var j :| 0 <= j <= |s| && Matches(x, s, 0, j);
      assert Matches(Start, s, 0, 0);
      assert Matches(Cat(Start, x), s, 0, j);
    }
  }

  /** A starred class followed by an anchor matches from `i` when some end position the
      anchor accepts is reached through characters of the class only. */
  lemma StarClassThenAnchor(cc: CharClass, anchor: Re, s: string, i: nat)
    requires i <= |s|
    requires anchor == End || anchor == EndOfText
    ensures MatchesFrom(Cat(Star(Class(cc)), anchor), s, i)
        <==> exists j :: i <= j <= |s| && Matches(anchor, s, j, j)
                          && forall k :: i <= k < j ==> InClass(cc, s[k])
  {
    if MatchesFrom(Cat(Star(Class(cc)), anchor), s, i) {
      var j :| i <= j <= |s| && Matches(Cat(Star(Class(cc)), anchor), s, i, j);
      assert Matches(Cat(Star(Class(cc)), anchor), s, i, j);
      var k :| i <= k <= j && Matches(Star(Class(cc)), s, i, k) && Matches(anchor, s, k, j);
      StarClass(cc, s, i, k);
      assert k == j;
      assert Matches(anchor, s, k, k) && forall m :: i <= m < k ==> InClass(cc, s[m]);
    }
    if exists j :: i <= j <= |s| && Matches(anchor, s, j, j) && forall k :: i <= k < j ==> InClass(cc, s[k]) {
      var j :| i <= j <= |s| && Matches(anchor, s, j, j) && forall k :: i <= k < j ==> InClass(cc, s[k]);
      StarClass(cc, s, i, j);
      assert Matches(Star(Class(cc)), s, i, j);
      assert Matches(Cat(Star(Class(cc)), anchor), s, i, j);
      assert MatchesFrom(Cat(Star(Class(cc)), anchor), s, i);
    }
  }
}
