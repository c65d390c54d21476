/** The parts of Java's `String` that the Morse coder relies on: ASCII case
    mapping, `indexOf`, `split` with a literal separator (leftmost,
    non-overlapping matches, trailing empty strings removed) and `endsWith`,
    plus `Join`, the inverse of splitting, used to state round trips. */
module JavaStrings {

  /** `Character.toLowerCase` restricted to ASCII. */
  function LowerChar(c: char): char {
    if 'A' <= c <= 'Z' then (c as int + 32) as char else c
  }

  /** `Character.toUpperCase` restricted to ASCII. */
  function UpperChar(c: char): char {
    if 'a' <= c <= 'z' then (c as int - 32) as char else c
  }

  /** `String.toLowerCase` on ASCII text: every upper-case letter becomes
      the lower-case letter that upper-cases back to it; every other
      character is kept. */
  function ToLower(s: string): (r: string)
    ensures |r| == |s|
    ensures forall i :: 0 <= i < |s| ==>
      if 'A' <= s[i] <= 'Z' then 'a' <= r[i] <= 'z' && UpperChar(r[i]) == s[i] else r[i] == s[i]
  {
    seq(|s|, i requires 0 <= i < |s| => LowerChar(s[i]))
  }

  /** `String.toUpperCase` on ASCII text: every lower-case letter becomes
      the upper-case letter that lower-cases back to it; every other
      character is kept. */
  function ToUpper(s: string): (r: string)
    ensures |r| == |s|
    ensures forall i :: 0 <= i < |s| ==>
      if 'a' <= s[i] <= 'z' then 'A' <= r[i] <= 'Z' && LowerChar(r[i]) == s[i] else r[i] == s[i]
  {
    seq(|s|, i requires 0 <= i < |s| => UpperChar(s[i]))
  }

  /** Upper-casing a lower-cased character is the same as upper-casing it. */
  lemma UpperOfLowerChar(c: char)
    ensures UpperChar(LowerChar(c)) == UpperChar(c)
    ensures LowerChar(c) == ' ' <==> c == ' '
  {
  }

  lemma ToUpperAppend(a: string, b: string)
    ensures ToUpper(a + b) == ToUpper(a) + ToUpper(b)
  {
  }

  lemma ToLowerAppend(a: string, b: string)
    ensures ToLower(a + b) == ToLower(a) + ToLower(b)
  {
  }

  /** `sep` occurs in `s` starting at index `k`. */
  predicate OccursAt(s: string, sep: string, k: nat) {
    k + |sep| <= |s| && s[k..k + |sep|] == sep
  }

  /** `s.indexOf(sep, from)`: the start of the leftmost occurrence of `sep`
      at or after `from`, or -1. */
  function IndexOfFrom(s: string, sep: string, from: nat): (r: int)
    requires sep != []
    ensures r == -1 || (from <= r && OccursAt(s, sep, r))
    decreases |s| - from
  {
    if from + |sep| > |s| then -1
    else if s[from..from + |sep|] == sep then from
    else IndexOfFrom(s, sep, from + 1)
  }

  /** `s.indexOf(sep)`: the start of the leftmost occurrence of `sep`, or -1. */
  function IndexOf(s: string, sep: string): (r: int)
    requires sep != []
    ensures r == -1 || (0 <= r && OccursAt(s, sep, r))
  {
    IndexOfFrom(s, sep, 0)
  }

  /** No occurrence lies between `from` and the one `IndexOfFrom` finds. */
  lemma {:induction false} IndexOfFromIsLeftmost(s: string, sep: string, from: nat, k: nat)
    requires sep != [] && from <= k
    requires IndexOfFrom(s, sep, from) == -1 || k < IndexOfFrom(s, sep, from)
    ensures !OccursAt(s, sep, k)
    decreases |s| - from
  {
    if from + |sep| <= |s| && s[from..from + |sep|] != sep && from < k {
      IndexOfFromIsLeftmost(s, sep, from + 1, k);
    }
  }

  /** `IndexOf` finds the leftmost occurrence, and -1 means there is none. */
  lemma IndexOfIsLeftmost(s: string, sep: string, k: nat)
    requires sep != []
    requires IndexOf(s, sep) == -1 || k < IndexOf(s, sep)
    ensures !OccursAt(s, sep, k)
  {
    IndexOfFromIsLeftmost(s, sep, 0, k);
  }

  /** The leftmost occurrence is the only one the contract of `IndexOf` allows. */
  lemma IndexOfIs(s: string, sep: string, k: nat)
    requires sep != []
    requires OccursAt(s, sep, k)
    requires forall j: nat :: j < k ==> !OccursAt(s, sep, j)
    ensures IndexOf(s, sep) == k
  {
    var r := IndexOf(s, sep);
    if r == -1 || k < r {
      IndexOfIsLeftmost(s, sep, k);
    }
  }

  /** Text appended after an occurrence does not move the leftmost occurrence. */
  lemma {:induction false} IndexOfAppend(a: string, b: string, sep: string)
    requires sep != []
    requires IndexOf(a, sep) >= 0
    ensures IndexOf(a + b, sep) == IndexOf(a, sep)
  {
    var k := IndexOf(a, sep);
    assert (a + b)[k..k + |sep|] == a[k..k + |sep|];
    forall j: nat | j < k ensures !OccursAt(a + b, sep, j) {
      IndexOfIsLeftmost(a, sep, j);
      assert (a + b)[j..j + |sep|] == a[j..j + |sep|];
    }
    IndexOfIs(a + b, sep, k);
  }

  /** The pieces of `s` between the leftmost non-overlapping occurrences of `sep`,
      empty pieces included: what `Pattern.split` collects before it drops
      trailing empty strings. */
  function Pieces(s: string, sep: string): (r: seq<string>)
    requires sep != []
    ensures |r| >= 1
    decreases |s|
  {
    var k := IndexOf(s, sep);
    if k < 0 then [s] else [s[..k]] + Pieces(s[k + |sep|..], sep)
  }

  /** `String.join(sep, xs)`. */
  function Join(xs: seq<string>, sep: string): string {
    if xs == [] then ""
    else if |xs| == 1 then xs[0]
    else xs[0] + sep + Join(xs[1..], sep)
  }

  /** `xs` without its trailing empty strings. */
  function DropTrailingEmpty(xs: seq<string>): (r: seq<string>)
    ensures r <= xs
    ensures r == [] || r[|r| - 1] != ""
    ensures forall i :: |r| <= i < |xs| ==> xs[i] == ""
  {
    if xs == [] || xs[|xs| - 1] != "" then xs else DropTrailingEmpty(xs[..|xs| - 1])
  }

  /** `s.split(sep)` for a separator without regular-expression metacharacters:
      a string without a match gives itself alone (even when empty);
      otherwise the pieces with the trailing empty ones removed. */
  function Split(s: string, sep: string): (r: seq<string>)
    requires sep != []
    ensures IndexOf(s, sep) == -1 ==> r == [s]
    ensures IndexOf(s, sep) >= 0 ==>
      r <= Pieces(s, sep) && (r == [] || r[|r| - 1] != "") &&
      forall i :: |r| <= i < |Pieces(s, sep)| ==> Pieces(s, sep)[i] == ""
  {
    var ps := Pieces(s, sep);
    if |ps| == 1 then ps else DropTrailingEmpty(ps)
  }

  /** `s.endsWith(suffix)`. */
  predicate EndsWith(s: string, suffix: string) {
    |suffix| <= |s| && s[|s| - |suffix|..] == suffix
  }

  /** A non-empty text ends with a one-character suffix exactly when its
      last character is that character. */
  lemma EndsWithChar(w: string, c: char)
    requires w != ""
    ensures EndsWith(w, [c]) <==> w[|w| - 1] == c
  {
    assert w[|w| - 1..] == [w[|w| - 1]];
  }

  lemma JoinCons(x: string, xs: seq<string>, sep: string)
    requires xs != []
    ensures Join([x] + xs, sep) == x + sep + Join(xs, sep)
  {
    assert ([x] + xs)[1..] == xs;
  }

  /** One step of `Pieces`: the text before the leftmost occurrence, then the
      pieces of the text after it. */
  lemma PiecesStep(s: string, sep: string)
    requires sep != [] && IndexOf(s, sep) >= 0
    ensures var k := IndexOf(s, sep);
      s == s[..k] + sep + s[k + |sep|..] &&
      Pieces(s, sep) == [s[..k]] + Pieces(s[k + |sep|..], sep)
  {
    var k := IndexOf(s, sep);
    assert OccursAt(s, sep, k);
  }

  /** Splitting and joining again gives the text back. */
  lemma {:induction false} JoinPieces(s: string, sep: string)
    requires sep != []
    ensures Join(Pieces(s, sep), sep) == s
    decreases |s|
  {
    var k := IndexOf(s, sep);
    if k >= 0 {
      var rest := s[k + |sep|..];
      PiecesStep(s, sep);
      JoinPieces(rest, sep);
      JoinCons(s[..k], Pieces(rest, sep), sep);
    }
  }

  /** `x` followed by `sep` has its first occurrence of `sep` where `sep` was
      appended: no occurrence inside `x`, and none straddling its end. */
  predicate Separated(x: string, sep: string)
    requires sep != []
  {
    IndexOf(x + sep, sep) == |x|
  }

  lemma SeparatedHasNoOccurrence(x: string, sep: string)
    requires sep != [] && Separated(x, sep)
    ensures IndexOf(x, sep) == -1
  {
    if IndexOf(x, sep) >= 0 {
      IndexOfAppend(x, sep, sep);
    }
  }

  /** Splitting a join of separated pieces gives the pieces back. */
  lemma {:induction false} PiecesOfJoin(xs: seq<string>, sep: string)
    requires sep != [] && xs != []
    requires forall i :: 0 <= i < |xs| ==> Separated(xs[i], sep)
    ensures Pieces(Join(xs, sep), sep) == xs
  {
    if |xs| == 1 {
      SeparatedHasNoOccurrence(xs[0], sep);
    } else {
      var rest := Join(xs[1..], sep);
      var s := xs[0] + sep + rest;
      assert Join(xs, sep) == s;
      assert (xs[0] + sep) + rest == s;
      IndexOfAppend(xs[0] + sep, rest, sep);
      PiecesStep(s, sep);
      assert s[..|xs[0]|] == xs[0];
      assert s[|xs[0]| + |sep|..] == rest;
      PiecesOfJoin(xs[1..], sep);
      assert xs == [xs[0]] + xs[1..];
    }
  }

  /** `split` undoes `Join` when no piece contains the separator, no piece
      runs into the following separator, and, when there are at least two
      pieces, the last one is not empty. */
  lemma SplitOfJoin(xs: seq<string>, sep: string)
    requires sep != [] && xs != []
    requires forall i :: 0 <= i < |xs| ==> Separated(xs[i], sep)
    requires |xs| > 1 ==> xs[|xs| - 1] != ""
    ensures Split(Join(xs, sep), sep) == xs
  {
    PiecesOfJoin(xs, sep);
  }

  /** A string without an occurrence of the separator splits into itself. */
  lemma SplitWithoutMatch(s: string, sep: string)
    requires sep != [] && IndexOf(s, sep) == -1
    ensures Split(s, sep) == [s]
  {
  }

  /** For a one-character separator, `IndexOf` finds the first position
      holding that character. */
  lemma IndexOfChar(s: string, d: char)
    ensures var k := IndexOf(s, [d]);
      (k == -1 <==> d !in s) &&
      (k >= 0 ==> k < |s| && s[k] == d && d !in s[..k])
  {
    var k := IndexOf(s, [d]);
    if k >= 0 {
      assert s[k..k + 1] == [d];
      assert s[k] in s;
      forall j | 0 <= j < k ensures s[j] != d {
        IndexOfIsLeftmost(s, [d], j);
        assert s[j..j + 1] == [s[j]];
      }
    } else {
      forall j | 0 <= j < |s| ensures s[j] != d {
        IndexOfIsLeftmost(s, [d], j);
        assert s[j..j + 1] == [s[j]];
      }
    }
  }

  /** The first position holding `d` is what `IndexOf` finds. */
  lemma IndexOfCharIs(s: string, d: char, k: nat)
    requires k < |s| && s[k] == d && d !in s[..k]
    ensures IndexOf(s, [d]) == k
  {
    IndexOfChar(s, d);
    assert s[k] in s;
  }

  /** For a one-character separator, being separated means not containing it. */
  lemma SeparatedByChar(x: string, d: char)
    requires d !in x
    ensures Separated(x, [d])
  {
    assert (x + [d])[..|x|] == x;
    IndexOfCharIs(x + [d], d, |x|);
  }

  /** A text without the separator character is a single piece. */
  lemma PiecesWithoutChar(s: string, d: char)
    requires d !in s
    ensures Pieces(s, [d]) == [s]
  {
    IndexOfChar(s, d);
  }

  /** A text whose only separator character is its last is two pieces, the
      second empty. */
  lemma PiecesEndingInChar(s: string, d: char)
    requires d !in s
    ensures Pieces(s + [d], [d]) == [s, ""]
  {
    assert (s + [d])[..|s|] == s;
    IndexOfCharIs(s + [d], d, |s|);
    PiecesStep(s + [d], [d]);
    assert (s + [d])[|s| + 1..] == [];
    PiecesWithoutChar([], d);
  }

  /** Adding one character at the end of a text: a separator character opens a
      new, empty last piece, any other character extends the last piece. */
  lemma {:induction false} PiecesSnoc(s: string, c: char, d: char)
    ensures var ps := Pieces(s, [d]);
      Pieces(s + [c], [d]) ==
        if c == d then ps + [""] else ps[..|ps| - 1] + [ps[|ps| - 1] + [c]]
    decreases |s|
  {
    IndexOfChar(s, d);
    var k := IndexOf(s, [d]);
    if k >= 0 {
      PiecesSnocStep(s, c, d);
    } else if c == d {
      PiecesWithoutChar(s, d);
      PiecesEndingInChar(s, d);
    } else {
      PiecesWithoutChar(s, d);
      PiecesWithoutChar(s + [c], d);
    }
  }

  /** The case of `PiecesSnoc` where the text already holds a separator. */
  lemma {:induction false} PiecesSnocStep(s: string, c: char, d: char)
    requires IndexOf(s, [d]) >= 0
    ensures var ps := Pieces(s, [d]);
      Pieces(s + [c], [d]) ==
        if c == d then ps + [""] else ps[..|ps| - 1] + [ps[|ps| - 1] + [c]]
    decreases |s|, 0
  {
    var k := IndexOf(s, [d]);
    var rest := s[k + 1..];
    PiecesAfterFirst(s, c, d);
    PiecesSnoc(rest, c, d);
    var qs := Pieces(rest, [d]);
    if c == d {
      assert [s[..k]] + (qs + [""]) == ([s[..k]] + qs) + [""];
    } else {
      ConsSnocLast(s[..k], qs, [c]);
    }
  }

  /** Cutting at the first separator commutes with adding a character at the
      end. */
  lemma PiecesAfterFirst(s: string, c: char, d: char)
    requires IndexOf(s, [d]) >= 0
    ensures var k := IndexOf(s, [d]);
      Pieces(s, [d]) == [s[..k]] + Pieces(s[k + 1..], [d]) &&
      Pieces(s + [c], [d]) == [s[..k]] + Pieces(s[k + 1..] + [c], [d])
  {
    var k := IndexOf(s, [d]);
    IndexOfAppend(s, [c], [d]);
    PiecesStep(s, [d]);
    PiecesStep(s + [c], [d]);
    assert (s + [c])[..k] == s[..k];
    assert (s + [c])[k + 1..] == s[k + 1..] + [c];
  }

  /** Extending the last of a non-empty sequence of strings after a first one. */
  lemma ConsSnocLast(head: string, qs: seq<string>, x: string)
    requires qs != []
    ensures var ps := [head] + qs;
      [head] + (qs[..|qs| - 1] + [qs[|qs| - 1] + x]) == ps[..|ps| - 1] + [ps[|ps| - 1] + x]
  {
    var ps := [head] + qs;
    assert ps[..|ps| - 1] == [head] + qs[..|qs| - 1];
  }

  /** A non-empty sequence is its prefix without the last element, then
      that element. */
  lemma SplitLast<T>(xs: seq<T>)
    requires xs != []
    ensures xs[..|xs| - 1] + [xs[|xs| - 1]] == xs
  {
  }

  /** Number of occurrences of the character `d` in `s`. */
  function CountChar(s: string, d: char): nat {
    if s == [] then 0
    else CountChar(s[..|s| - 1], d) + (if s[|s| - 1] == d then 1 else 0)
  }

  /** A text has one more piece than it has separator characters. */
  lemma {:induction false} PiecesCount(s: string, d: char)
    ensures |Pieces(s, [d])| == CountChar(s, d) + 1
    decreases |s|
  {
    if s != [] {
      var init := s[..|s| - 1];
      PiecesCount(init, d);
      PiecesSnoc(init, s[|s| - 1], d);
      assert init + [s[|s| - 1]] == s;
    }
  }

  /** No piece of a text cut at a character holds that character. */
  lemma {:induction false} PiecesLackChar(s: string, d: char)
    ensures forall k :: 0 <= k < |Pieces(s, [d])| ==> d !in Pieces(s, [d])[k]
    decreases |s|
  {
    IndexOfChar(s, d);
    var k := IndexOf(s, [d]);
    if k >= 0 {
      PiecesStep(s, [d]);
      PiecesLackChar(s[k + 1..], d);
    }
  }

  /** Lower-casing keeps the spaces where they are, so it keeps their number. */
  lemma {:induction false} CountCharToLower(s: string)
    ensures CountChar(ToLower(s), ' ') == CountChar(s, ' ')
  {
    if s != [] {
      var init := s[..|s| - 1];
      CountCharToLower(init);
      ToLowerAppend(init, [s[|s| - 1]]);
      assert init + [s[|s| - 1]] == s;
      var t := ToLower(s);
      assert t[..|t| - 1] == ToLower(init);
      UpperOfLowerChar(s[|s| - 1]);
    }
  }

  /** Every occurrence of `d` in `x` stands alone between two other
      characters: `x` neither starts nor ends with `d` and never holds it
      twice in a row. */
  predicate SingleSpaced(x: string, d: char) {
    forall i :: 0 <= i < |x| && x[i] == d ==> 0 < i < |x| - 1 && x[i - 1] != d && x[i + 1] != d
  }

  /** Non-empty strings without `d`, joined by `d`, are single-spaced. */
  lemma {:induction false} JoinSingleSpaced(xs: seq<string>, d: char)
    requires forall k :: 0 <= k < |xs| ==> |xs[k]| > 0 && d !in xs[k]
    ensures SingleSpaced(Join(xs, [d]), d)
  {
    if |xs| == 1 {
      forall i | 0 <= i < |xs[0]| ensures xs[0][i] != d {
        assert xs[0][i] in xs[0];
      }
    } else if |xs| > 1 {
      var x := xs[0];
      var rest := Join(xs[1..], [d]);
      JoinSingleSpaced(xs[1..], d);
      JoinNonEmpty(xs[1..], [d]);
      var j := x + [d] + rest;
      assert Join(xs, [d]) == j;
      forall i | 0 <= i < |j|
        ensures j[i] == d ==> 0 < i < |j| - 1 && j[i - 1] != d && j[i + 1] != d
      {
        if i < |x| {
          assert j[i] == x[i] && x[i] in x;
        } else if i == |x| {
          assert j[i - 1] == x[|x| - 1] && x[|x| - 1] in x;
          assert j[i + 1] == rest[0];
        } else {
          var r := i - |x| - 1;
          assert j[i] == rest[r];
          if rest[r] == d {
            assert j[i - 1] == if r == 0 then d else rest[r - 1];
            assert j[i + 1] == rest[r + 1];
          }
        }
      }
    }
  }

  /** Non-empty strings joined give a non-empty string. */
  lemma JoinNonEmpty(xs: seq<string>, sep: string)
    requires xs != [] && |xs[0]| > 0
    ensures |Join(xs, sep)| > 0
  {
  }

  /** A single-spaced text followed by a run of at least two `d` has its
      first occurrence of that run where the run was appended. */
  lemma SingleSpacedIsSeparated(x: string, sep: string, d: char)
    requires |sep| >= 2 && forall i :: 0 <= i < |sep| ==> sep[i] == d
    requires SingleSpaced(x, d)
    ensures Separated(x, sep)
  {
    var s := x + sep;
    assert s[|x|..|x| + |sep|] == sep;
    forall j: nat | j < |x| ensures !OccursAt(s, sep, j) {
      if j + 1 < |x| {
        assert s[j] == x[j] && s[j + 1] == x[j + 1];
      } else {
        assert s[j] == x[|x| - 1];
      }
      if j + |sep| <= |s| {
        assert s[j..j + |sep|][0] == s[j] && s[j..j + |sep|][1] == s[j + 1];
      }
    }
    IndexOfIs(s, sep, |x|);
  }

  /** Every character of a joined piece is a character of the join. */
  lemma {:induction false} JoinMember(xs: seq<string>, sep: string, j: int, i: int)
    requires 0 <= j < |xs| && 0 <= i < |xs[j]|
    ensures xs[j][i] in Join(xs, sep)
  {
    if |xs| > 1 {
      JoinCons(xs[0], xs[1..], sep);
      assert [xs[0]] + xs[1..] == xs;
      if j == 0 {
        assert Join(xs, sep)[i] == xs[0][i];
      } else {
        JoinMember(xs[1..], sep, j - 1, i);
      }
    }
  }

  /** In a join by a one-character separator, the last character of a
      non-empty piece other than the last is directly followed by the
      separator character. */
  lemma {:induction false} JoinPieceFollowedBySep(xs: seq<string>, d: char, j: int)
    requires 0 <= j < |xs| - 1 && xs[j] != ""
    ensures exists p :: (0 <= p < |Join(xs, [d])| - 1 &&
      Join(xs, [d])[p] == xs[j][|xs[j]| - 1] && Join(xs, [d])[p + 1] == d)
  {
    var rest := Join(xs[1..], [d]);
    JoinCons(xs[0], xs[1..], [d]);
    assert [xs[0]] + xs[1..] == xs;
    var joined := xs[0] + [d] + rest;
    if j == 0 {
      var p := |xs[0]| - 1;
      assert joined[p] == xs[0][p] && joined[p + 1] == d;
    } else {
      JoinPieceFollowedBySep(xs[1..], d, j - 1);
      var q :| 0 <= q < |rest| - 1 && rest[q] == xs[j][|xs[j]| - 1] && rest[q + 1] == d;
      var p := |xs[0]| + 1 + q;
      assert joined[p] == rest[q] && joined[p + 1] == rest[q + 1];
    }
  }
}
