/**
 * The java.lang.String operations the crawler relies on, over `seq<char>`:
 * occurrence search, split(" ") and the literal replace(target, replacement).
 */
module JavaStrings {

  /** `t` occurs in `s` at position `k`. */
  predicate OccursAt(t: string, s: string, k: int) {
    0 <= k && k + |t| <= |s| && s[k..k + |t|] == t
  }

  /** `t` occurs somewhere in `s` (String.contains, Matcher.find for a literal pattern). */
  predicate Occurs(t: string, s: string) {
    exists k | 0 <= k <= |s| :: OccursAt(t, s, k)
  }

  /** An occurrence in a suffix is an occurrence in the whole text, shifted. */
  lemma OccursAtShift(t: string, s: string, n: int, k: int)
    requires 0 <= n <= |s| && 0 <= k
    ensures OccursAt(t, s[n..], k) <==> OccursAt(t, s, k + n)
  {
    if k + |t| <= |s| - n {
      assert s[n..][k..k + |t|] == s[k + n..k + n + |t|];
    }
  }

  /** Concatenation is associative. */
  lemma AppendAssoc<T>(a: seq<T>, b: seq<T>, c: seq<T>)
    ensures (a + b) + c == a + (b + c)
  {
  }

  /** A nonempty prefix is the first element followed by a prefix of the rest. */
  lemma PrefixCons<T>(s: seq<T>, n: nat)
    requires 0 < n <= |s|
    ensures s[..n] == [s[0]] + s[1..][..n - 1]
  {
  }

  // ---------------------------------------------------------------------------
  // String.split(" ")
  // ---------------------------------------------------------------------------

  /** The text between consecutive spaces, empty pieces included: one more piece than spaces. */
  function Pieces(s: string): (ps: seq<string>)
    ensures |ps| >= 1
    ensures |ps[0]| <= |s| && ps[0] == s[..|ps[0]|] && ' ' !in ps[0]
    ensures |ps[0]| == |s| ==> |ps| == 1
    ensures |ps[0]| < |s| ==> s[|ps[0]|] == ' '
  {
    if s == [] then [[]]
    else
      var rest := Pieces(s[1..]);
      if s[0] == ' ' then [[]] + rest
      else [[s[0]] + rest[0]] + rest[1..]
  }

  /** Removes the empty pieces at the end. */
  function DropTrailingEmpty(ps: seq<string>): (r: seq<string>)
    ensures |r| <= |ps| && r == ps[..|r|]
    ensures forall k :: |r| <= k < |ps| ==> ps[k] == []
    ensures |r| > 0 ==> r[|r| - 1] != []
  {
    if |ps| > 0 && ps[|ps| - 1] == [] then DropTrailingEmpty(ps[..|ps| - 1]) else ps
  }

  /**
   * String.split(" "): the pieces between spaces with the trailing empty ones
   * removed; a text without any space is its own single piece.
   */
  function JavaSplit(s: string): (toks: seq<string>)
    ensures |toks| <= |Pieces(s)|
    ensures forall k :: 0 <= k < |toks| ==> toks[k] == Pieces(s)[k]
    ensures forall k :: |toks| <= k < |Pieces(s)| ==> Pieces(s)[k] == []
    ensures ' ' !in s ==> toks == [s]
    ensures ' ' in s && |toks| > 0 ==> toks[|toks| - 1] != []
  {
    if ' ' !in s then [s] else DropTrailingEmpty(Pieces(s))
  }

  /** A piece without spaces followed by a space is the first piece. */
  lemma {:induction false} PiecesAtSpace(a: string, b: string)
    requires ' ' !in a
    ensures Pieces(a + " " + b) == [a] + Pieces(b)
    decreases |a|
  {
    var s := a + " " + b;
    if a == [] {
      assert s[1..] == b;
    } else {
      assert s[1..] == a[1..] + " " + b;
      PiecesAtSpace(a[1..], b);
      assert [a[0]] + a[1..] == a;
    }
  }

  // ---------------------------------------------------------------------------
  // String.replace(target, replacement)
  // ---------------------------------------------------------------------------

  /** Every occurrence of `target`, scanning left to right without overlap, becomes `replacement`. */
  function Replace(s: string, target: string, replacement: string): string
    requires |target| > 0
    decreases |s|
  {
    if |s| < |target| then s
    else if s[..|target|] == target then replacement + Replace(s[|target|..], target, replacement)
    else [s[0]] + Replace(s[1..], target, replacement)
  }

  /** Without an occurrence of the target nothing is replaced. */
  lemma {:induction false} ReplaceAbsent(s: string, t: string, r: string)
    requires |t| > 0 && !Occurs(t, s)
    ensures Replace(s, t, r) == s
    decreases |s|
  {
    if |s| >= |t| {
      assert !OccursAt(t, s, 0);
      forall k | OccursAt(t, s[1..], k) ensures OccursAt(t, s, k + 1) {
        assert s[1..][k..k + |t|] == s[k + 1..k + 1 + |t|];
      }
      ReplaceAbsent(s[1..], t, r);
    }
  }

  /** A target whose first character is not in the text does not occur in it. */
  lemma FirstCharAbsent(t: string, s: string)
    requires |t| > 0 && t[0] !in s
    ensures !Occurs(t, s)
  {
    forall k | 0 <= k <= |s| ensures !OccursAt(t, s, k) {
      if k + |t| <= |s| {
        assert s[k] in s;
        assert s[k..k + |t|][0] == s[k];
      }
    }
  }

  /** A text that starts with the target has it replaced first. */
  lemma ReplaceAtFront(t: string, u: string, r: string)
    requires |t| > 0
    ensures Replace(t + u, t, r) == r + Replace(u, t, r)
  {
    assert (t + u)[..|t|] == t;
    assert (t + u)[|t|..] == u;
  }

  /** A target without spaces never spans a space, so replacing can be done on each side. */
  lemma {:induction false} ReplaceAroundSpace(a: string, b: string, t: string, r: string)
    requires |t| > 0 && ' ' !in t
    ensures Replace(a + " " + b, t, r) == Replace(a, t, r) + " " + Replace(b, t, r)
    decreases |a|
  {
    var x := a + " " + b;
    if |x| < |t| {
      assert Replace(a, t, r) == a && Replace(b, t, r) == b;
    } else if a == [] {
      assert x[..|t|] != t by { assert x[..|t|][0] == ' ' != t[0]; }
      assert x[1..] == b;
    } else if |a| >= |t| && a[..|t|] == t {
      assert x[|t|..] == a[|t|..] + " " + b;
      ReplaceAroundSpace(a[|t|..], b, t, r);
      ReplaceAroundSpaceMatch(a, b, t, r);
    } else {
      assert x[1..] == a[1..] + " " + b;
      ReplaceAroundSpace(a[1..], b, t, r);
      ReplaceAroundSpaceSkip(a, b, t, r);
    }
  }

  /** Helper: the step of ReplaceAroundSpace where `a` starts with the target. */
  lemma ReplaceAroundSpaceMatch(a: string, b: string, t: string, r: string)
    requires |t| > 0 && |a| >= |t| && a[..|t|] == t
    requires Replace(a[|t|..] + " " + b, t, r) == Replace(a[|t|..], t, r) + " " + Replace(b, t, r)
    ensures Replace(a + " " + b, t, r) == Replace(a, t, r) + " " + Replace(b, t, r)
  {
    var x := a + " " + b;
    assert x[..|t|] == a[..|t|];
    assert x[|t|..] == a[|t|..] + " " + b;
  }

  /** Helper: the step of ReplaceAroundSpace where `a` does not start with the target. */
  lemma ReplaceAroundSpaceSkip(a: string, b: string, t: string, r: string)
    requires |t| > 0 && ' ' !in t && a != [] && |a + " " + b| >= |t|
    requires !(|a| >= |t| && a[..|t|] == t)
    requires Replace(a[1..] + " " + b, t, r) == Replace(a[1..], t, r) + " " + Replace(b, t, r)
    ensures Replace(a + " " + b, t, r) == Replace(a, t, r) + " " + Replace(b, t, r)
  {
    var x := a + " " + b;
    var ra, rb := Replace(a[1..], t, r), Replace(b, t, r);
    assert Replace(x, t, r) == [a[0]] + (ra + " " + rb) by {
      NoMatchAtFront(a, b, t);
      ReplaceSkipsFront(x, t, r);
      assert x[0] == a[0] && x[1..] == a[1..] + " " + b;
    }
    assert Replace(a, t, r) == [a[0]] + ra by {
      ReplaceSkipsFront(a, t, r);
    }
    AppendAssoc([a[0]], ra + " ", rb);
    AppendAssoc([a[0]], ra, " ");
  }

  /** Helper: when `a` does not start with `t`, neither does `a + " " + b`. */
  lemma NoMatchAtFront(a: string, b: string, t: string)
    requires |t| > 0 && ' ' !in t && a != []
    requires |a + " " + b| >= |t|
    requires !(|a| >= |t| && a[..|t|] == t)
    ensures (a + " " + b)[..|t|] != t
  {
    var x := a + " " + b;
    if |a| >= |t| {
      assert x[..|t|] == a[..|t|];
    } else {
      assert x[..|t|][|a|] == ' ';
    }
  }

  /** Helper: a text that does not start with the target keeps its first character. */
  lemma ReplaceSkipsFront(a: string, t: string, r: string)
    requires |t| > 0 && a != []
    requires !(|a| >= |t| && a[..|t|] == t)
    ensures Replace(a, t, r) == [a[0]] + Replace(a[1..], t, r)
  {
    if |a| < |t| {
      assert Replace(a[1..], t, r) == a[1..];
      assert [a[0]] + a[1..] == a;
    }
  }

}
