/**
  Shell-style wildcard matching, as `fnmatch.fnmatch` does it on POSIX (where
  `normcase` is the identity, so matching is case-sensitive).

  A pattern is first turned into a sequence of tokens the way
  `fnmatch.translate` turns it into a regular expression, and the tokens are
  then matched against the WHOLE name: `*` matches any run of characters
  (path separators included), `?` exactly one character, `[...]` one
  character of a class (`[!...]` one character outside it), anything else
  itself.
*/
module Glob {

  /** One member of a bracket expression: a single character or a range `lo-hi`. */
  datatype ClassItem = Single(c: char) | Range(lo: char, hi: char)

  datatype Token =
    | Star                                          // `*`
    | AnyChar                                       // `?`
    | Class(negated: bool, items: seq<ClassItem>)   // `[...]`, `[!...]`
    | Lit(c: char)                                  // any other character

  /** The first `]` at or after `j`, or `|pat|` when there is none. */
  function ClassEnd(pat: string, j: nat): (k: nat)
    requires j <= |pat|
    ensures j <= k <= |pat|
    ensures k < |pat| ==> pat[k] == ']'
    ensures forall m :: j <= m < k ==> pat[m] != ']'
    decreases |pat| - j
  {
    if j == |pat| || pat[j] == ']' then j else ClassEnd(pat, j + 1)
  }

  /** The members of a bracket expression's body: `x-y` is a range, any other character itself. */
  function ClassItems(body: string): seq<ClassItem>
  {
    if |body| >= 3 && body[1] == '-' then [Range(body[0], body[2])] + ClassItems(body[3..])
    else if body == [] then []
    else [Single(body[0])] + ClassItems(body[1..])
  }

  /**
    The tokens of `pat[i..]`. A `[` opens a bracket expression whose body runs
    to the next `]`, where a `!` right after the `[` negates it and a `]` right
    after the `[` (or the `[!`) belongs to the body; a `[` with no closing `]`
    stands for itself and scanning resumes right after it.
  */
  function Translate(pat: string, i: nat): seq<Token>
    requires i <= |pat|
    decreases |pat| - i
  {
    if i == |pat| then []
    else if pat[i] == '*' then [Star] + Translate(pat, i + 1)
    else if pat[i] == '?' then [AnyChar] + Translate(pat, i + 1)
    else if pat[i] == '[' then
      var j1 := if i + 1 < |pat| && pat[i + 1] == '!' then i + 2 else i + 1;
      var j2 := if j1 < |pat| && pat[j1] == ']' then j1 + 1 else j1;
      var j := ClassEnd(pat, j2);
      if j == |pat| then [Lit('[')] + Translate(pat, i + 1)
      else if pat[i + 1] == '!' then [Class(true, ClassItems(pat[i + 2..j]))] + Translate(pat, j + 1)
      else [Class(false, ClassItems(pat[i + 1..j]))] + Translate(pat, j + 1)
    else [Lit(pat[i])] + Translate(pat, i + 1)
  }

  predicate ItemMatches(item: ClassItem, c: char)
  {
    match item
    case Single(d) => c == d
    case Range(lo, hi) => lo <= c <= hi
  }

  predicate InClass(items: seq<ClassItem>, c: char)
  {
    items != [] && (ItemMatches(items[0], c) || InClass(items[1..], c))
  }

  /** Whether the tokens `toks` match all of `s`. */
  predicate Matches(toks: seq<Token>, s: string)
    decreases |toks|, |s|
  {
    if toks == [] then s == []
    else match toks[0]
      case Star => Matches(toks[1..], s) || (s != [] && Matches(toks, s[1..]))
      case AnyChar => s != [] && Matches(toks[1..], s[1..])
      case Class(negated, items) => s != [] && InClass(items, s[0]) != negated && Matches(toks[1..], s[1..])
      case Lit(c) => s != [] && s[0] == c && Matches(toks[1..], s[1..])
  }

  /** `fnmatch.fnmatch(name, pat)` on POSIX. */
  predicate FnMatch(name: string, pat: string)
  {
    Matches(Translate(pat, 0), name)
  }

  /** A character with no wildcard meaning. */
  predicate Plain(c: char)
  {
    c != '*' && c != '?' && c != '['
  }

  /** Text with no wildcard characters. */
  predicate PlainText(p: string)
  {
    '*' !in p && '?' !in p && '[' !in p
  }

  function Lits(p: string): (toks: seq<Token>)
    ensures |toks| == |p|
    ensures forall k :: 0 <= k < |p| ==> toks[k] == Lit(p[k])
  {
    if p == [] then [] else [Lit(p[0])] + Lits(p[1..])
  }

  /** A `*` followed by `rest` matches `s` exactly when `rest` matches some suffix of `s`. */
  lemma {:induction false} StarMatchesSuffix(rest: seq<Token>, s: string)
    ensures Matches([Star] + rest, s) <==> exists k :: 0 <= k <= |s| && Matches(rest, s[k..])
    decreases |s|
  {
    var toks := [Star] + rest;
    assert toks[1..] == rest;
    assert s[0..] == s;
    if s != [] {
      StarMatchesSuffix(rest, s[1..]);
      assert forall k :: 1 <= k <= |s| ==> s[1..][k - 1..] == s[k..];
      if Matches(toks, s) && !Matches(rest, s) {
        var k :| 0 <= k <= |s[1..]| && Matches(rest, s[1..][k..]);
        assert s[1..][k..] == s[k + 1..];
      }
    }
  }

  /** `?` matches exactly the names of one character. */
  lemma QuestionMatchesOneChar(name: string)
    ensures FnMatch(name, "?") <==> |name| == 1
  {
    assert Translate("?", 1) == [];
    assert Translate("?", 0) == [AnyChar] + Translate("?", 1);
    OneTokenMatches(AnyChar, name);
  }

  /** The class `[c]` matches the one name `c`; a `!` there would negate instead. */
  lemma ClassMatches(name: string, c: char)
    requires c != '!'
    ensures FnMatch(name, "[" + [c] + "]") <==> name == [c]
  {
    var pat := "[" + [c] + "]";
    assert |pat| == 3 && pat[0] == '[' && pat[1] == c && pat[2] == ']';
    assert ClassEnd(pat, 2) == 2;
    assert c != ']' ==> ClassEnd(pat, 1) == 2;
    assert pat[1..2] == [c];
    assert ClassItems([c]) == [Single(c)] by {
      assert [c][1..] == [];
    }
    assert Translate(pat, 3) == [];
    assert Translate(pat, 0) == [Class(false, [Single(c)])] + Translate(pat, 3);
    OneTokenMatches(Class(false, [Single(c)]), name);
    InSingleClass(c, if name == [] then c else name[0]);
  }

  /** The class `[!c]` matches the names of one character other than `c`. */
  lemma NegatedClassMatches(name: string, c: char)
    ensures FnMatch(name, "[!" + [c] + "]") <==> |name| == 1 && name[0] != c
  {
    var pat := "[!" + [c] + "]";
    assert |pat| == 4 && pat[0] == '[' && pat[1] == '!' && pat[2] == c && pat[3] == ']';
    assert ClassEnd(pat, 3) == 3;
    assert c != ']' ==> ClassEnd(pat, 2) == 3;
    assert pat[2..3] == [c];
    assert ClassItems([c]) == [Single(c)] by {
      assert [c][1..] == [];
    }
    assert Translate(pat, 4) == [];
    assert Translate(pat, 0) == [Class(true, [Single(c)])] + Translate(pat, 4);
    OneTokenMatches(Class(true, [Single(c)]), name);
    InSingleClass(c, if name == [] then c else name[0]);
  }

  /** The class `[lo-hi]` matches the names of one character between `lo` and `hi`. */
  lemma RangeMatches(name: string, lo: char, hi: char)
    requires lo != '!' && hi != ']'
    ensures FnMatch(name, "[" + [lo, '-', hi] + "]") <==> |name| == 1 && lo <= name[0] <= hi
  {
    var pat := "[" + [lo, '-', hi] + "]";
    assert |pat| == 5 && pat[0] == '[' && pat[1] == lo && pat[2] == '-' && pat[3] == hi && pat[4] == ']';
    assert ClassEnd(pat, 4) == 4 && ClassEnd(pat, 3) == 4 && ClassEnd(pat, 2) == 4;
    assert lo != ']' ==> ClassEnd(pat, 1) == 4;
    assert pat[1..4] == [lo, '-', hi];
    assert ClassItems([lo, '-', hi]) == [Range(lo, hi)] by {
      assert [lo, '-', hi][3..] == [];
    }
    assert Translate(pat, 5) == [];
    assert Translate(pat, 0) == [Class(false, [Range(lo, hi)])] + Translate(pat, 5);
    OneTokenMatches(Class(false, [Range(lo, hi)]), name);
    assert [Range(lo, hi)][1..] == [];
    assert name != [] ==> (InClass([Range(lo, hi)], name[0]) <==> lo <= name[0] <= hi);
  }

  /** A `[` that no `]` closes stands for itself. */
  lemma UnclosedBracketIsLiteral(name: string)
    ensures FnMatch(name, "[") <==> name == "["
  {
    assert ClassEnd("[", 1) == 1;
    assert Translate("[", 1) == [];
    assert Translate("[", 0) == [Lit('[')] + Translate("[", 1);
    OneTokenMatches(Lit('['), name);
  }

  /** A single token other than `*` matches the names of one character it accepts. */
  lemma OneTokenMatches(t: Token, name: string)
    requires !t.Star?
    ensures Matches([t], name) <==> |name| == 1 && TokenAccepts(t, name[0])
  {
    assert [t][1..] == [];
  }

  /** Whether the single-character token `t` accepts `x`. */
  predicate TokenAccepts(t: Token, x: char)
  {
    match t
    case Star => true
    case AnyChar => true
    case Class(negated, items) => InClass(items, x) != negated
    case Lit(c) => x == c
  }

  lemma InSingleClass(c: char, x: char)
    ensures InClass([Single(c)], x) <==> x == c
  {
    assert [Single(c)][1..] == [];
  }

  /** The pattern `*` matches every name, separators included. */
  lemma StarMatchesEverything(name: string)
    ensures FnMatch(name, "*")
  {
    assert Translate("*", 0) == [Star] + [];
    StarMatchesSuffix([], name);
    assert Matches([], name[|name|..]);
  }

  /** Literal tokens match exactly their own text. */
  lemma {:induction false} LitsMatch(p: string, s: string)
    ensures Matches(Lits(p), s) <==> s == p
  {
    if p != [] {
      assert Lits(p)[1..] == Lits(p[1..]);
      if s != [] {
        LitsMatch(p[1..], s[1..]);
        if s[1..] == p[1..] && s[0] == p[0] {
          assert s == [s[0]] + s[1..];
          assert p == [p[0]] + p[1..];
        }
      }
    }
  }

  /** Literal tokens followed by `*` match exactly the names starting with that text. */
  lemma {:induction false} LitsStarMatch(p: string, s: string)
    ensures Matches(Lits(p) + [Star], s) <==> (|p| <= |s| && s[..|p|] == p)
  {
    if p == [] {
      assert Lits(p) + [Star] == [Star] + [];
      StarMatchesSuffix([], s);
      assert Matches([], s[|s|..]);
    } else {
      assert (Lits(p) + [Star])[1..] == Lits(p[1..]) + [Star];
      if s != [] {
        LitsStarMatch(p[1..], s[1..]);
        if |p| <= |s| && s[..|p|] == p {
          assert s[1..][..|p| - 1] == p[1..];
        }
        if |p[1..]| <= |s[1..]| && s[1..][..|p[1..]|] == p[1..] && s[0] == p[0] {
          assert s[..|p|] == [s[0]] + s[1..][..|p| - 1];
          assert p == [p[0]] + p[1..];
        }
      }
    }
  }

  /** Translation of a run of plain characters yields one literal token each. */
  lemma {:induction false} TranslatePlain(pat: string, i: nat, k: nat)
    requires i <= k <= |pat|
    requires forall m :: i <= m < k ==> Plain(pat[m])
    ensures Translate(pat, i) == Lits(pat[i..k]) + Translate(pat, k)
    decreases k - i
  {
    if i < k {
      assert Plain(pat[i]);
      assert Translate(pat, i) == [Lit(pat[i])] + Translate(pat, i + 1);
      TranslatePlain(pat, i + 1, k);
      assert pat[i..k] == [pat[i]] + pat[i + 1..k];
      assert Lits(pat[i..k]) == [Lit(pat[i])] + Lits(pat[i + 1..k]);
      assert Translate(pat, i) == [Lit(pat[i])] + (Lits(pat[i + 1..k]) + Translate(pat, k));
    }
  }

  /** A pattern without wildcard characters matches only the identical name. */
  lemma PlainPatternMatchesItself(name: string, pat: string)
    requires PlainText(pat)
    ensures FnMatch(name, pat) <==> name == pat
  {
    TranslatePlain(pat, 0, |pat|);
    assert pat[0..|pat|] == pat;
    assert Translate(pat, 0) == Lits(pat);
    LitsMatch(pat, name);
  }

  /** `prefix*` with a plain prefix matches exactly the names beginning with the prefix. */
  lemma PrefixStarMatches(name: string, prefix: string)
    requires PlainText(prefix)
    ensures FnMatch(name, prefix + "*") <==> (|prefix| <= |name| && name[..|prefix|] == prefix)
  {
    var pat := prefix + "*";
    TranslatePlain(pat, 0, |prefix|);
    assert pat[0..|prefix|] == prefix;
    assert Translate(pat, |prefix|) == [Star] + Translate(pat, |prefix| + 1);
    assert Translate(pat, 0) == Lits(prefix) + [Star];
    LitsStarMatch(prefix, name);
  }
}
