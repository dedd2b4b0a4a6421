/** The regular-expression matcher behind grep: match, matchhere and matchstar
    decide membership in the language that the pattern denotes. */
module Grep {

  /** The characters of a C string before its terminating NUL. */
  type cstring = s: string | forall i :: 0 <= i < |s| ==> s[i] != '\0' witness ""

  /** What C reads at index i: index |s| holds the NUL. */
  function At(s: cstring, i: nat): char {
    if i < |s| then s[i] else '\0'
  }

  // --- The language of a pattern -------------------------------------------

  datatype Atom = Lit(c: char) | Any

  datatype Regex =
    | Empty
    | EndOfText
    | One(atom: Atom, rest: Regex)
    | Star(atom: Atom, rest: Regex)

  function AtomOf(c: char): Atom {
    if c == '.' then Any else Lit(c)
  }

  /** The concrete syntax: a star binds to the character before it, even when
      that character is '$', and '$' is an anchor only as the last character. */
  function Parse(re: string): Regex {
    if re == "" then Empty
    else if |re| > 1 && re[1] == '*' then Star(AtomOf(re[0]), Parse(re[2..]))
    else if re == "$" then EndOfText
    else One(AtomOf(re[0]), Parse(re[1..]))
  }

  predicate Accepts(a: Atom, c: char) {
    a == Any || a == Lit(c)
  }

  predicate AllAccepted(a: Atom, w: string) {
    forall i :: 0 <= i < |w| ==> Accepts(a, w[i])
  }

  /** The word w is in the language of r, anchors apart. */
  ghost predicate InLanguage(r: Regex, w: string) {
    match r
    case Empty => w == ""
    case EndOfText => w == ""
    case One(a, rest) => w != "" && Accepts(a, w[0]) && InLanguage(rest, w[1..])
    case Star(a, rest) =>
      exists k | 0 <= k <= |w| :: AllAccepted(a, w[..k]) && InLanguage(rest, w[k..])
  }

  predicate AnchoredAtEnd(r: Regex) {
    match r
    case Empty => false
    case EndOfText => true
    case One(_, rest) => AnchoredAtEnd(rest)
    case Star(_, rest) => AnchoredAtEnd(rest)
  }

  /** Some prefix of t, the whole of t if r ends in '$', is in the language. */
  ghost predicate MatchesPrefix(r: Regex, t: string) {
    exists e | 0 <= e <= |t| :: InLanguage(r, t[..e]) && (AnchoredAtEnd(r) ==> e == |t|)
  }

  /** Some substring of text, ending at the end if r is anchored there, is in the language. */
  ghost predicate MatchesSomewhere(r: Regex, text: string) {
    exists b, e | 0 <= b <= e <= |text| ::
      InLanguage(r, text[b..e]) && (AnchoredAtEnd(r) ==> e == |text|)
  }

  // --- The language in terms of the pattern's characters -------------------------

  /** Character c of a pattern stands for d. */
  predicate StandsFor(c: char, d: char) { c == '.' || c == d }

  /** A character, with a star behind it or not, before the rest of the pattern. */
  lemma {:induction false} FirstOfPattern(c: char, rest: string, w: string)
    ensures (if rest == "" then c != '$' else rest[0] != '*') ==>
              (InLanguage(Parse([c] + rest), w)
               <==> w != "" && StandsFor(c, w[0]) && InLanguage(Parse(rest), w[1..]))
    ensures InLanguage(Parse([c, '*'] + rest), w)
            <==> exists k | 0 <= k <= |w| ::
                   (forall i :: 0 <= i < k ==> StandsFor(c, w[i])) && InLanguage(Parse(rest), w[k..])
    ensures InLanguage(Parse(""), w) <==> w == ""
    ensures InLanguage(Parse("$"), w) <==> w == ""
  {
    var one, star := [c] + rest, [c, '*'] + rest;
    assert one[1..] == rest && star[2..] == rest;
    assert Parse(star) == Star(AtomOf(c), Parse(rest));
    forall k | 0 <= k <= |w|
      ensures AllAccepted(AtomOf(c), w[..k]) <==> forall i :: 0 <= i < k ==> StandsFor(c, w[i])
    {
      assert forall i :: 0 <= i < k ==> w[..k][i] == w[i];
    }
  }

  /** A pattern is tied to the end of the text exactly if its last character is '$'. */
  lemma {:induction false} AnchoredIff(re: string)
    ensures AnchoredAtEnd(Parse(re)) <==> re != "" && re[|re| - 1] == '$'
  {
    if |re| > 1 && re[1] == '*' {
      AnchoredIff(re[2..]);
    } else if re != "" && re != "$" {
      AnchoredIff(re[1..]);
    }
  }

  /** The word falls into a word of p and one of q at k. */
  ghost predicate Falls(p: Regex, q: Regex, w: string, k: int) {
    0 <= k <= |w| && InLanguage(p, w[..k]) && InLanguage(q, w[k..])
  }

  ghost predicate FallsApart(p: Regex, q: Regex, w: string) {
    exists k :: Falls(p, q, w, k)
  }

  /** One pattern behind the other matches one word behind the other. */
  lemma {:induction false} Concatenation(a: string, b: string, w: string)
    requires b != "" ==> b[0] != '*' && (a != "" ==> a[|a| - 1] != '$')
    ensures InLanguage(Parse(a + b), w) <==> FallsApart(Parse(a), Parse(b), w)
    decreases |a|
  {
    hide InLanguage, FallsApart;
    if b == "" {
      assert a + b == a;
      EmptyLast(Parse(a), w);
    } else if a == "" {
      assert a + b == b;
      EmptyFirst(Parse(b), w);
    } else if |a| > 1 && a[1] == '*' {
      assert (a + b)[2..] == a[2..] + b;
      forall m | 0 <= m <= |w|
        ensures InLanguage(Parse(a[2..] + b), w[m..]) <==> FallsApart(Parse(a[2..]), Parse(b), w[m..])
      {
        Concatenation(a[2..], b, w[m..]);
      }
      StarThen(AtomOf(a[0]), Parse(a[2..]), Parse(a[2..] + b), Parse(b), w);
    } else {
      assert (a + b)[1..] == a[1..] + b;
      assert Parse(a) == One(AtomOf(a[0]), Parse(a[1..]));
      assert Parse(a + b) == One(AtomOf(a[0]), Parse(a[1..] + b));
      if w != "" {
        Concatenation(a[1..], b, w[1..]);
      }
      OneThen(AtomOf(a[0]), Parse(a[1..]), Parse(a[1..] + b), Parse(b), w);
    }
  }

  lemma {:induction false} EmptyLast(p: Regex, w: string)
    ensures FallsApart(p, Empty, w) <==> InLanguage(p, w)
  {
    assert w[..|w|] == w;
    if k :| Falls(p, Empty, w, k) {
      assert |w[k..]| == 0;
    }
    if InLanguage(p, w) {
      assert Falls(p, Empty, w, |w|);
    }
  }

  lemma {:induction false} EmptyFirst(q: Regex, w: string)
    ensures FallsApart(Empty, q, w) <==> InLanguage(q, w)
  {
    assert w[0..] == w;
    if k :| Falls(Empty, q, w, k) {
      assert |w[..k]| == 0;
    }
    if InLanguage(q, w) {
      assert Falls(Empty, q, w, 0);
    }
  }

  lemma {:induction false} OneIs(a: Atom, p: Regex, w: string)
    ensures InLanguage(One(a, p), w) <==> w != "" && Accepts(a, w[0]) && InLanguage(p, w[1..])
  {
  }

  lemma {:induction false} OneThen(a: Atom, p: Regex, r: Regex, q: Regex, w: string)
    requires w != "" ==> (InLanguage(r, w[1..]) <==> FallsApart(p, q, w[1..]))
    ensures InLanguage(One(a, r), w) <==> FallsApart(One(a, p), q, w)
  {
    hide InLanguage;
    OneIs(a, r, w);
    if InLanguage(One(a, r), w) {
      var j :| Falls(p, q, w[1..], j);
      assert w[..j + 1][1..] == w[1..][..j] && w[j + 1..] == w[1..][j..];
      OneIs(a, p, w[..j + 1]);
      assert Falls(One(a, p), q, w, j + 1);
    }
    if k :| Falls(One(a, p), q, w, k) {
      OneIs(a, p, w[..k]);
      assert w[..k] != "" && w[..k][1..] == w[1..][..k - 1] && w[k..] == w[1..][k - 1..];
      assert Falls(p, q, w[1..], k - 1);
    }
  }

  lemma {:induction false} StarIntro(a: Atom, p: Regex, w: string, k: nat)
    requires k <= |w| && AllAccepted(a, w[..k]) && InLanguage(p, w[k..])
    ensures InLanguage(Star(a, p), w)
  {
  }

  lemma {:induction false} StarElim(a: Atom, p: Regex, w: string) returns (k: nat)
    requires InLanguage(Star(a, p), w)
    ensures k <= |w| && AllAccepted(a, w[..k]) && InLanguage(p, w[k..])
  {
    k :| k <= |w| && AllAccepted(a, w[..k]) && InLanguage(p, w[k..]);
  }

  lemma {:induction false} StarThen(a: Atom, p: Regex, r: Regex, q: Regex, w: string)
    requires forall m | 0 <= m <= |w| :: InLanguage(r, w[m..]) <==> FallsApart(p, q, w[m..])
    ensures InLanguage(Star(a, r), w) <==> FallsApart(Star(a, p), q, w)
  {
    hide InLanguage, AllAccepted;
    if InLanguage(Star(a, r), w) {
      var m := StarElim(a, r, w);
      var j :| Falls(p, q, w[m..], j);
      assert w[..m + j][..m] == w[..m] && w[..m + j][m..] == w[m..][..j] && w[m + j..] == w[m..][j..];
      StarIntro(a, p, w[..m + j], m);
      assert Falls(Star(a, p), q, w, m + j);
    }
    if k :| Falls(Star(a, p), q, w, k) {
      var m := StarElim(a, p, w[..k]);
      assert w[..k][..m] == w[..m] && w[..k][m..] == w[m..][..k - m] && w[k..] == w[m..][k - m..];
      assert Falls(p, q, w[m..], k - m);
      StarIntro(a, r, w, m);
    }
  }

  // --- Unfolding a match one pattern element at a time ---------------------

  lemma {:induction false} PrefixOfOne(a: Atom, rest: Regex, t: string)
    ensures MatchesPrefix(One(a, rest), t)
       <==> t != "" && Accepts(a, t[0]) && MatchesPrefix(rest, t[1..])
  {
    var r := One(a, rest);
    if MatchesPrefix(r, t) {
      var e :| 0 <= e <= |t| && InLanguage(r, t[..e]) && (AnchoredAtEnd(r) ==> e == |t|);
      assert t[..e][1..] == t[1..][..e - 1];
    }
    if t != "" && Accepts(a, t[0]) && MatchesPrefix(rest, t[1..]) {
      var e :| 0 <= e <= |t| - 1 && InLanguage(rest, t[1..][..e]) && (AnchoredAtEnd(rest) ==> e == |t| - 1);
      assert t[..e + 1][1..] == t[1..][..e];
      assert InLanguage(r, t[..e + 1]);
    }
  }

  lemma {:induction false} PrefixOfStar(a: Atom, rest: Regex, t: string)
    ensures MatchesPrefix(Star(a, rest), t)
       <==> exists k | 0 <= k <= |t| :: AllAccepted(a, t[..k]) && MatchesPrefix(rest, t[k..])
  {
    hide InLanguage, AllAccepted;
    var r := Star(a, rest);
    if MatchesPrefix(r, t) {
      var e :| 0 <= e <= |t| && InLanguage(r, t[..e]) && (AnchoredAtEnd(r) ==> e == |t|);
      var k := StarElim(a, rest, t[..e]);
      assert t[..e][..k] == t[..k] && t[..e][k..] == t[k..][..e - k];
      assert MatchesPrefix(rest, t[k..]);
    }
    if k :| 0 <= k <= |t| && AllAccepted(a, t[..k]) && MatchesPrefix(rest, t[k..]) {
      var e :| 0 <= e <= |t| - k && InLanguage(rest, t[k..][..e]) && (AnchoredAtEnd(rest) ==> e == |t| - k);
      assert t[..k + e][..k] == t[..k] && t[..k + e][k..] == t[k..][..e];
      StarIntro(a, rest, t[..k + e], k);
    }
  }

  lemma {:induction false} SomewhereIsSomePrefix(r: Regex, text: string)
    ensures MatchesSomewhere(r, text) <==> exists b | 0 <= b <= |text| :: MatchesPrefix(r, text[b..])
  {
    if MatchesSomewhere(r, text) {
      var b, e :| 0 <= b <= e <= |text| && InLanguage(r, text[b..e]) && (AnchoredAtEnd(r) ==> e == |text|);
      assert text[b..][..e - b] == text[b..e];
      assert MatchesPrefix(r, text[b..]);
    }
    if b :| 0 <= b <= |text| && MatchesPrefix(r, text[b..]) {
      var e :| 0 <= e <= |text| - b && InLanguage(r, text[b..][..e]) && (AnchoredAtEnd(r) ==> e == |text| - b);
      assert text[b..][..e] == text[b..b + e];
    }
  }

  // --- The three C functions; a pointer into a string is an index ----------

  method MatchHere(re: cstring, i: nat, text: cstring, j: nat) returns (found: bool)
    requires i <= |re| && j <= |text|
    ensures found <==> MatchesPrefix(Parse(re[i..]), text[j..])
    decreases |re| - i, 0
  {
    var t := text[j..];
    if At(re, i) == '\0' {
      assert InLanguage(Empty, t[..0]);
      return true;
    }
    if At(re, i + 1) == '*' {
      assert re[i..][2..] == re[i + 2..];
      found := MatchStar(re[i], re, i + 2, text, j);
      return;
    }
    if At(re, i) == '$' && At(re, i + 1) == '\0' {
      assert re[i..] == "$";
      assert t[..|t|] == t;
      return At(text, j) == '\0';
    }
    assert re[i..][1..] == re[i + 1..];
    PrefixOfOne(AtomOf(re[i]), Parse(re[i + 1..]), t);
    if At(text, j) != '\0' && (At(re, i) == '.' || At(re, i) == At(text, j)) {
      assert t[1..] == text[j + 1..];
      found := MatchHere(re, i + 1, text, j + 1);
      return;
    }
    return false;
  }

  method MatchStar(c: char, re: cstring, i: nat, text: cstring, j: nat) returns (found: bool)
    requires i <= |re| && j <= |text|
    ensures found <==> MatchesPrefix(Star(AtomOf(c), Parse(re[i..])), text[j..])
    decreases |re| - i, 1
  {
    var rest, t := Parse(re[i..]), text[j..];
    PrefixOfStar(AtomOf(c), rest, t);
    var k := j;
    while true
      invariant j <= k <= |text|
      invariant AllAccepted(AtomOf(c), t[..k - j])
      invariant forall m | 0 <= m < k - j :: !MatchesPrefix(rest, t[m..])
      decreases |text| - k
    {
      assert t[k - j..] == text[k..];
      var here := MatchHere(re, i, text, k);
      if here {
        return true;
      }
      if At(text, k) == '\0' || !(At(text, k) == c || c == '.') {
        break;
      }
      assert t[..k + 1 - j] == t[..k - j] + [text[k]];
      k := k + 1;
    }
    forall m | k - j < m <= |t|
      ensures !AllAccepted(AtomOf(c), t[..m])
    {
      assert t[..m][k - j] == text[k];
    }
    return false;
  }

  /** The whole matcher: '^' ties the match to the start of the text. */
  method Match(re: cstring, text: cstring) returns (found: bool)
    ensures At(re, 0) == '^' ==> (found <==> MatchesPrefix(Parse(re[1..]), text))
    ensures At(re, 0) != '^' ==> (found <==> MatchesSomewhere(Parse(re), text))
  {
    if At(re, 0) == '^' {
      assert text[0..] == text;
      found := MatchHere(re, 1, text, 0);
      return;
    }
    assert re[0..] == re;
    SomewhereIsSomePrefix(Parse(re), text);
    var j := 0;
    while true
      invariant 0 <= j <= |text|
      invariant forall b | 0 <= b < j :: !MatchesPrefix(Parse(re), text[b..])
      decreases |text| - j
    {
      found := MatchHere(re, 0, text, j);
      if found {
        return;
      }
      if At(text, j) == '\0' {
        break;
      }
      j := j + 1;
    }
    return false;
  }
}
