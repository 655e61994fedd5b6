/**
 * The JavaScript string built-ins the matcher is written with:
 * `toLowerCase` (on ASCII letters), `trim`, `split(',')`, `split(/\s+/)`
 * and `includes`. Strings are sequences of Unicode scalar values.
 */
module Text {

  /** The code points JavaScript's `trim` strips and its `\s` class matches:
      the WhiteSpace and LineTerminator characters. */
  predicate IsSpace(c: char) {
    || c == '\t' || c == '\n' || c == '\U{B}' || c == '\U{C}' || c == '\r' || c == ' '
    || c == '\U{A0}' || c == '\U{1680}' || ('\U{2000}' <= c <= '\U{200A}')
    || c == '\U{2028}' || c == '\U{2029}' || c == '\U{202F}' || c == '\U{205F}'
    || c == '\U{3000}' || c == '\U{FEFF}'
  }

  predicate NoSpace(s: string) {
    forall i :: 0 <= i < |s| ==> !IsSpace(s[i])
  }

  predicate AllSpace(s: string) {
    forall i :: 0 <= i < |s| ==> IsSpace(s[i])
  }

  // ---------------------------------------------------------------- toLowerCase

  function LowerChar(c: char): char {
    if 'A' <= c <= 'Z' then (c as int + 32) as char else c
  }

  /** `s.toLowerCase()`, restricted to the ASCII letters. */
  function Lower(s: string): (r: string)
    ensures |r| == |s|
  {
    seq(|s|, i requires 0 <= i < |s| => LowerChar(s[i]))
  }

  /** Lowercasing twice is lowercasing once. */
  lemma LowerIdempotent(s: string)
    ensures Lower(Lower(s)) == Lower(s)
  {
    assert forall i :: 0 <= i < |s| ==> Lower(Lower(s))[i] == Lower(s)[i];
  }

  /** Lowercasing distributes over concatenation. */
  lemma LowerAppend(a: string, b: string)
    ensures Lower(a + b) == Lower(a) + Lower(b)
  {
    assert forall i :: 0 <= i < |a + b| ==> Lower(a + b)[i] == (Lower(a) + Lower(b))[i];
  }

  predicate NoUpper(s: string) {
    forall i :: 0 <= i < |s| ==> !('A' <= s[i] <= 'Z')
  }

  /** Lowercasing a string without capital letters changes nothing. */
  lemma LowerOfLowercase(s: string)
    requires NoUpper(s)
    ensures Lower(s) == s
  {
    assert forall i :: 0 <= i < |s| ==> Lower(s)[i] == s[i];
  }

  /** Lowercasing leaves white space where it was. */
  lemma LowerKeepsSpace(s: string)
    ensures forall i :: 0 <= i < |s| ==> (IsSpace(Lower(s)[i]) <==> IsSpace(s[i]))
  {}

  // ------------------------------------------------------------------- includes

  predicate StartsWith(s: string, prefix: string) {
    |prefix| <= |s| && s[..|prefix|] == prefix
  }

  /** `t` occurs in `s` starting at index `i`. */
  predicate OccursAt(s: string, t: string, i: int) {
    0 <= i && i + |t| <= |s| && s[i..i + |t|] == t
  }

  /** `s.includes(t)`: `t` occurs in `s` at some index. */
  predicate Contains(s: string, t: string) {
    exists i :: 0 <= i <= |s| - |t| && OccursAt(s, t, i)
  }

  /** Every string includes the empty string. */
  lemma ContainsEmpty(s: string)
    ensures Contains(s, [])
  {
    assert OccursAt(s, [], 0);
  }

  /** A string that lacks one of the characters of `t` does not include `t`. */
  lemma MissingCharNotContained(s: string, t: string, c: char)
    requires c in t && c !in s
    ensures !Contains(s, t)
  {
    var k :| 0 <= k < |t| && t[k] == c;
    forall i | 0 <= i <= |s| - |t|
      ensures !OccursAt(s, t, i)
    {
      assert s[i..i + |t|][k] == s[i + k] != c;
    }
  }

  /** A string in which two consecutive characters of `t` never appear side
      by side does not include `t`. */
  lemma MissingPairNotContained(s: string, t: string, j: nat)
    requires j + 1 < |t|
    requires forall i :: 0 <= i < |s| - 1 ==> !(s[i] == t[j] && s[i + 1] == t[j + 1])
    ensures !Contains(s, t)
  {
    forall i | 0 <= i <= |s| - |t|
      ensures !OccursAt(s, t, i)
    {
      assert s[i..i + |t|][j] == s[i + j] && s[i..i + |t|][j + 1] == s[i + j + 1];
    }
  }

  /** `includes` is transitive: a substring of a substring is a substring. */
  lemma ContainsTransitive(a: string, b: string, c: string)
    requires Contains(a, b) && Contains(b, c)
    ensures Contains(a, c)
  {
    var i :| 0 <= i <= |a| - |b| && OccursAt(a, b, i);
    var j :| 0 <= j <= |b| - |c| && OccursAt(b, c, j);
    forall k | 0 <= k < |c|
      ensures a[i + j..i + j + |c|][k] == c[k]
    {
      assert c[k] == b[j + k] == a[i + j + k];
    }
    assert a[i + j..i + j + |c|] == c;
    assert OccursAt(a, c, i + j);
  }

  // ----------------------------------------------------------------------- trim

  function TrimStart(s: string): (r: string)
    ensures |r| <= |s| && r == s[|s| - |r|..]
    ensures AllSpace(s[..|s| - |r|])
    ensures r == [] || !IsSpace(r[0])
  {
    if s != [] && IsSpace(s[0]) then
      var r := TrimStart(s[1..]);
      assert s[..|s| - |r|] == [s[0]] + s[1..][..|s| - 1 - |r|];
      assert s[1..][|s| - 1 - |r|..] == s[|s| - |r|..];
      r
    else s
  }

  function TrimEnd(s: string): (r: string)
    ensures |r| <= |s| && r == s[..|r|]
    ensures AllSpace(s[|r|..])
    ensures r == [] || !IsSpace(r[|r| - 1])
  {
    if s != [] && IsSpace(s[|s| - 1]) then TrimEnd(s[..|s| - 1]) else s
  }

  /** `s.trim()`: neither starts nor ends with white space. */
  function Trim(s: string): (r: string)
    ensures r == [] || (!IsSpace(r[0]) && !IsSpace(r[|r| - 1]))
  {
    TrimEnd(TrimStart(s))
  }

  /** A term without surrounding white space is its own trim, also after
      one leading blank (as after the comma of `"a, b"`). */
  lemma TrimPadded(w: string)
    requires w != [] && !IsSpace(w[0]) && !IsSpace(w[|w| - 1])
    ensures Trim(w) == w
    ensures Trim([' '] + w) == w
  {
    assert ([' '] + w)[1..] == w;
  }

  /** What `trim` removes is white space around the result, and nothing else. */
  lemma TrimStrips(s: string)
    ensures exists i :: OccursAt(s, Trim(s), i) && AllSpace(s[..i]) && AllSpace(s[i + |Trim(s)|..])
  {
    var head := TrimStart(s);
    var r := TrimEnd(head);
    var i := |s| - |head|;
    assert s[i..i + |r|] == r;
    assert s[i + |r|..] == head[|r|..];
    assert OccursAt(s, r, i);
  }

  /** A string of white space alone trims to the empty string. */
  lemma TrimAllSpace(s: string)
    requires AllSpace(s)
    ensures Trim(s) == []
  {
    TrimStrips(s);
  }

  // -------------------------------------------------------------- split / join

  /** `parts.join(sep)`. */
  function Join(parts: seq<string>, sep: char): string {
    if parts == [] then []
    else if |parts| == 1 then parts[0]
    else parts[0] + [sep] + Join(parts[1..], sep)
  }

  /** `s.split(sep)` for a one-character separator: there is always at least
      one piece. */
  function Split(s: string, sep: char): (parts: seq<string>)
    ensures |parts| >= 1
    decreases |s|
  {
    if s == [] then [[]]
    else
      var rest := Split(s[1..], sep);
      if s[0] == sep then [[]] + rest else [[s[0]] + rest[0]] + rest[1..]
  }

  /** No piece of a split holds the separator. */
  lemma {:induction false} SplitPiecesFree(s: string, sep: char)
    ensures forall i :: 0 <= i < |Split(s, sep)| ==> sep !in Split(s, sep)[i]
    decreases |s|
  {
    if s != [] {
      SplitPiecesFree(s[1..], sep);
    }
  }

  lemma JoinConsHead(c: char, p: string, ps: seq<string>, sep: char)
    ensures Join([[c] + p] + ps, sep) == [c] + Join([p] + ps, sep)
  {
    if ps != [] {
      assert ([[c] + p] + ps)[1..] == ps;
      assert ([p] + ps)[1..] == ps;
    }
  }

  /** Joining the pieces of a split with the separator gives back the string. */
  lemma {:induction false} JoinSplit(s: string, sep: char)
    ensures Join(Split(s, sep), sep) == s
    decreases |s|
  {
    if s != [] {
      var rest := Split(s[1..], sep);
      JoinSplit(s[1..], sep);
      if s[0] == sep {
        assert ([[]] + rest)[1..] == rest;
      } else {
        assert rest == [rest[0]] + rest[1..];
        JoinConsHead(s[0], rest[0], rest[1..], sep);
      }
    }
  }

  lemma {:induction false} SplitAfterPiece(p: string, t: string, sep: char)
    requires sep !in p
    ensures Split(p + [sep] + t, sep) == [p] + Split(t, sep)
    decreases |p|
  {
    if p == [] {
      assert p + [sep] + t == [sep] + t;
      assert ([sep] + t)[1..] == t;
    } else {
      SplitAfterPiece(p[1..], t, sep);
      assert (p + [sep] + t)[1..] == p[1..] + [sep] + t;
      assert [p[0]] + p[1..] == p;
    }
  }

  lemma {:induction false} SplitWithoutSeparator(p: string, sep: char)
    requires sep !in p
    ensures Split(p, sep) == [p]
    decreases |p|
  {
    if p != [] {
      SplitWithoutSeparator(p[1..], sep);
      assert [p[0]] + p[1..] == p;
    }
  }

  /** Splitting a join of separator-free pieces gives back the pieces. */
  lemma {:induction false} SplitJoin(parts: seq<string>, sep: char)
    requires |parts| >= 1
    requires forall i :: 0 <= i < |parts| ==> sep !in parts[i]
    ensures Split(Join(parts, sep), sep) == parts
    decreases |parts|
  {
    if |parts| == 1 {
      SplitWithoutSeparator(parts[0], sep);
    } else {
      SplitJoin(parts[1..], sep);
      SplitAfterPiece(parts[0], Join(parts[1..], sep), sep);
      assert [parts[0]] + parts[1..] == parts;
    }
  }

  // ---------------------------------------------------------- split(/\s+/)

  /** `s.split(/\s+/)`: the pieces between maximal runs of white space. The
      first piece is empty exactly when `s` is empty or starts with white
      space. */
  function SplitSpaces(s: string): (words: seq<string>)
    ensures |words| >= 1
    ensures words[0] == [] <==> (s == [] || IsSpace(s[0]))
    decreases |s|
  {
    if s == [] then [[]]
    else
      var rest := SplitSpaces(s[1..]);
      if !IsSpace(s[0]) then [[s[0]] + rest[0]] + rest[1..]
      else if |s| > 1 && IsSpace(s[1]) then rest
      else [[]] + rest
  }

  /** No piece of a split on white space holds white space. */
  lemma {:induction false} SplitSpacesWordsFree(s: string)
    ensures forall i :: 0 <= i < |SplitSpaces(s)| ==> NoSpace(SplitSpaces(s)[i])
    decreases |s|
  {
    if s != [] {
      SplitSpacesWordsFree(s[1..]);
    }
  }

  /** `s` with every maximal run of white space replaced by one blank. */
  function Collapse(s: string): (r: string)
    ensures |r| <= |s|
    decreases |s|
  {
    if s == [] then []
    else if !IsSpace(s[0]) then [s[0]] + Collapse(s[1..])
    else if |s| > 1 && IsSpace(s[1]) then Collapse(s[1..])
    else [' '] + Collapse(s[1..])
  }

  lemma {:induction false} JoinSplitSpaces(s: string)
    ensures Join(SplitSpaces(s), ' ') == Collapse(s)
    decreases |s|
  {
    if s != [] {
      var rest := SplitSpaces(s[1..]);
      JoinSplitSpaces(s[1..]);
      if !IsSpace(s[0]) {
        assert rest == [rest[0]] + rest[1..];
        JoinConsHead(s[0], rest[0], rest[1..], ' ');
      } else if !(|s| > 1 && IsSpace(s[1])) {
        assert ([[]] + rest)[1..] == rest;
      }
    }
  }

  /** Splitting on runs of white space is splitting on single blanks once
      every run has been collapsed to one blank. */
  lemma SplitSpacesIsSplitOfCollapse(s: string)
    ensures SplitSpaces(s) == Split(Collapse(s), ' ')
  {
    var words := SplitSpaces(s);
    SplitSpacesWordsFree(s);
    forall i, k | 0 <= i < |words| && 0 <= k < |words[i]|
      ensures words[i][k] != ' '
    {
      assert !IsSpace(words[i][k]);
    }
    JoinSplitSpaces(s);
    SplitJoin(words, ' ');
  }

  lemma {:induction false} SplitSpacesOfWord(w: string)
    requires NoSpace(w)
    ensures SplitSpaces(w) == [w]
    decreases |w|
  {
    if w != [] {
      SplitSpacesOfWord(w[1..]);
      assert [w[0]] + w[1..] == w;
    }
  }

  lemma {:induction false} SplitSpacesAfterWord(w: string, t: string)
    requires NoSpace(w)
    requires t == [] || !IsSpace(t[0])
    ensures SplitSpaces(w + [' '] + t) == [w] + SplitSpaces(t)
    decreases |w|
  {
    if w == [] {
      assert w + [' '] + t == [' '] + t;
      assert ([' '] + t)[1..] == t;
    } else {
      SplitSpacesAfterWord(w[1..], t);
      assert (w + [' '] + t)[1..] == w[1..] + [' '] + t;
      assert [w[0]] + w[1..] == w;
    }
  }

  /** Splitting a blank-separated list of words gives back the words, when
      none is empty and none holds white space. */
  lemma {:induction false} SplitSpacesJoin(words: seq<string>)
    requires |words| >= 1
    requires forall i :: 0 <= i < |words| ==> words[i] != [] && NoSpace(words[i])
    ensures SplitSpaces(Join(words, ' ')) == words
    decreases |words|
  {
    if |words| == 1 {
      SplitSpacesOfWord(words[0]);
    } else {
      SplitSpacesJoin(words[1..]);
      var t := Join(words[1..], ' ');
      assert t == [] || !IsSpace(t[0]) by {
        JoinStartsWithFirst(words[1..], ' ');
      }
      SplitSpacesAfterWord(words[0], t);
      assert [words[0]] + words[1..] == words;
    }
  }

  lemma JoinStartsWithFirst(parts: seq<string>, sep: char)
    requires |parts| >= 1 && parts[0] != []
    ensures Join(parts, sep) != [] && Join(parts, sep)[0] == parts[0][0]
  {
  }
}
