/**
 * The relevance filter of the crawler: a vacancy title is about Java when,
 * lower-cased and with every "javascript", "java script" and "java-script"
 * replaced by a space, it still contains "java".
 */
module RelevanceFilter {
  import opened JavaStrings

  /** The pattern searched for (JAVA_PATTERN). */
  const JAVA: string := "java"

  /** The three alternatives of JAVA_SCRIPT_TEMPLATE, in pattern order. */
  const JAVASCRIPT: string := "javascript"
  const JAVA_SPACE_SCRIPT: string := "java script"
  const JAVA_DASH_SCRIPT: string := "java-script"

  /** String.toLowerCase restricted to ASCII letters. */
  function LowerChar(c: char): char {
    if 'A' <= c <= 'Z' then (c as int + 32) as char else c
  }

  /** The title lower-cased: capital ASCII letters become small ones, every other character stays. */
  function ToLower(s: string): (r: string)
    ensures |r| == |s|
    ensures forall k | 0 <= k < |r| :: !('A' <= r[k] <= 'Z')
    ensures forall k | 0 <= k < |r| :: if 'A' <= s[k] <= 'Z' then r[k] as int == s[k] as int + 32 else r[k] == s[k]
  {
    seq(|s|, k requires 0 <= k < |s| => LowerChar(s[k]))
  }

  /** One of the three near-miss phrases starts at position `i`. */
  predicate DecoyAt(s: string, i: int) {
    OccursAt(JAVASCRIPT, s, i) || OccursAt(JAVA_SPACE_SCRIPT, s, i) || OccursAt(JAVA_DASH_SCRIPT, s, i)
  }

  /** The length of the phrase the regular expression matches at the start of `s`, or 0. */
  function DecoyLength(s: string): (n: nat)
    ensures n == 0 <==> !DecoyAt(s, 0)
    ensures n > 0 ==> n <= |s| && s[..n] in {JAVASCRIPT, JAVA_SPACE_SCRIPT, JAVA_DASH_SCRIPT}
  {
    if OccursAt(JAVASCRIPT, s, 0) then |JAVASCRIPT|
    else if OccursAt(JAVA_SPACE_SCRIPT, s, 0) then |JAVA_SPACE_SCRIPT|
    else if OccursAt(JAVA_DASH_SCRIPT, s, 0) then |JAVA_DASH_SCRIPT|
    else 0
  }

  /**
   * replaceAll("(javascript|java script|java-script)", " "): scanning left to
   * right, every match is replaced by one space and scanning resumes after it.
   */
  function StripDecoys(s: string): string
    decreases |s|
  {
    if s == [] then []
    else if DecoyLength(s) > 0 then " " + StripDecoys(s[DecoyLength(s)..])
    else [s[0]] + StripDecoys(s[1..])
  }

  /** isRelevanceJavaTemplate. */
  predicate IsRelevant(name: string) {
    Occurs(JAVA, StripDecoys(ToLower(name)))
  }

  /** A "java" at `i` that is not the start of a near-miss phrase. */
  predicate GenuineJavaAt(s: string, i: int) {
    OccursAt(JAVA, s, i) && !DecoyAt(s, i)
  }

  // ---------------------------------------------------------------------------
  // How StripDecoys treats the front of the text
  // ---------------------------------------------------------------------------

  /** Every phrase starts with 'j' and has no other 'j'. */
  lemma NoJInsideDecoy(s: string)
    requires DecoyAt(s, 0)
    ensures forall k :: 0 < k < DecoyLength(s) ==> s[k] != 'j'
  {
    forall k | 0 < k < DecoyLength(s) ensures s[k] != 'j' {
      if OccursAt(JAVASCRIPT, s, 0) {
        assert s[k] == s[..10][k] == JAVASCRIPT[k];
      } else if OccursAt(JAVA_SPACE_SCRIPT, s, 0) {
        assert s[k] == s[..11][k] == JAVA_SPACE_SCRIPT[k];
      } else {
        assert s[k] == s[..11][k] == JAVA_DASH_SCRIPT[k];
      }
    }
  }

  /** A text that does not start with 'j' keeps its first character. */
  lemma StripNotJ(s: string)
    requires |s| > 0 && s[0] != 'j'
    ensures StripDecoys(s) == [s[0]] + StripDecoys(s[1..])
  {
    assert !DecoyAt(s, 0) by {
      assert !OccursAt(JAVASCRIPT, s, 0) by { assert JAVASCRIPT[0] == 'j'; }
      assert !OccursAt(JAVA_SPACE_SCRIPT, s, 0) by { assert JAVA_SPACE_SCRIPT[0] == 'j'; }
      assert !OccursAt(JAVA_DASH_SCRIPT, s, 0) by { assert JAVA_DASH_SCRIPT[0] == 'j'; }
    }
  }

  /** A stripped text that does not start with a space starts with the original first character. */
  lemma StripFirst(s: string)
    requires |StripDecoys(s)| > 0 && StripDecoys(s)[0] != ' '
    ensures |s| > 0 && !DecoyAt(s, 0)
    ensures StripDecoys(s)[0] == s[0] && StripDecoys(s)[1..] == StripDecoys(s[1..])
  {
  }

  /** A stripped text whose first `n` characters hold no space begins with the same `n` characters as the text. */
  lemma {:induction false} StrippedPrefix(s: string, n: nat)
    requires n <= |StripDecoys(s)| && ' ' !in StripDecoys(s)[..n]
    ensures n <= |s| && s[..n] == StripDecoys(s)[..n]
    ensures n > 0 ==> !DecoyAt(s, 0)
    decreases n
  {
    var r := StripDecoys(s);
    if n > 0 {
      assert r[0] == r[..n][0];
      StripFirst(s);
      assert StripDecoys(s[1..])[..n - 1] == r[1..n];
      assert ' ' !in StripDecoys(s[1..])[..n - 1] by {
        forall c | c in r[1..n] ensures c in r[..n] {
          var k :| 0 <= k < n - 1 && r[1..n][k] == c;
          assert r[..n][k + 1] == c;
        }
      }
      StrippedPrefix(s[1..], n - 1);
      PrefixCons(s, n);
      PrefixCons(r, n);
    }
  }

  /** A text whose first `n` characters hold no 'j' keeps them at the front of the stripped text. */
  lemma {:induction false} KeptPrefix(s: string, n: nat)
    requires n <= |s| && 'j' !in s[..n]
    ensures n <= |StripDecoys(s)| && StripDecoys(s)[..n] == s[..n]
    decreases n
  {
    if n > 0 {
      assert s[0] == s[..n][0];
      StripNotJ(s);
      assert 'j' !in s[1..][..n - 1] by {
        forall c | c in s[1..][..n - 1] ensures c in s[..n] {
          var k :| 0 <= k < n - 1 && s[1..][..n - 1][k] == c;
          assert s[..n][k + 1] == c;
        }
      }
      KeptPrefix(s[1..], n - 1);
      PrefixCons(s, n);
      PrefixCons(StripDecoys(s), n);
    }
  }

  /** A "java" at the front of the stripped text was a genuine "java" at the front of the text. */
  lemma StrippedJavaAtFront(s: string)
    requires OccursAt(JAVA, StripDecoys(s), 0)
    ensures GenuineJavaAt(s, 0)
  {
    assert StripDecoys(s)[..4] == JAVA;
    assert ' ' !in JAVA;
    StrippedPrefix(s, 4);
  }

  /** A genuine "java" at the front of the text stays at the front of the stripped text. */
  lemma GenuineJavaAtFront(s: string)
    requires GenuineJavaAt(s, 0)
    ensures OccursAt(JAVA, StripDecoys(s), 0)
  {
    assert s[..4] == JAVA;
    assert s[1..][..3] == "ava" by { assert s[1..][..3] == s[..4][1..]; }
    assert 'j' !in "ava";
    KeptPrefix(s[1..], 3);
    var r := StripDecoys(s);
    assert r == [s[0]] + StripDecoys(s[1..]);
    assert r[..4] == [s[0]] + StripDecoys(s[1..])[..3];
  }

  /** An occurrence in `b` is an occurrence in `a + b`, shifted by |a|. */
  lemma OccursAfterPrefix(t: string, a: string, b: string, k: int)
    requires OccursAt(t, b, k)
    ensures OccursAt(t, a + b, k + |a|)
  {
    assert (a + b)[k + |a|..k + |a| + |t|] == b[k..k + |t|];
  }

  // ---------------------------------------------------------------------------
  // What the filter accepts
  // ---------------------------------------------------------------------------

  /** Every "java" left after stripping comes from a genuine "java" of the text. */
  lemma {:induction false} StripFindsOnlyGenuine(s: string)
    requires Occurs(JAVA, StripDecoys(s))
    ensures exists i | 0 <= i <= |s| :: GenuineJavaAt(s, i)
    decreases |s|
  {
    var r := StripDecoys(s);
    var k :| 0 <= k <= |r| && OccursAt(JAVA, r, k);
    if k == 0 {
      StrippedJavaAtFront(s);
    } else {
      var n := if DecoyLength(s) > 0 then DecoyLength(s) else 1;
      var rest := StripDecoys(s[n..]);
      assert r == [r[0]] + rest;
      assert r[1..] == rest;
      OccursAtShift(JAVA, r, 1, k - 1);
      assert OccursAt(JAVA, rest, k - 1);
      StripFindsOnlyGenuine(s[n..]);
      var i :| 0 <= i <= |s[n..]| && GenuineJavaAt(s[n..], i);
      OccursAtShift(JAVA, s, n, i);
      OccursAtShift(JAVASCRIPT, s, n, i);
      OccursAtShift(JAVA_SPACE_SCRIPT, s, n, i);
      OccursAtShift(JAVA_DASH_SCRIPT, s, n, i);
      assert GenuineJavaAt(s, i + n);
    }
  }

  /** Every genuine "java" of the text survives stripping. */
  lemma {:induction false} StripKeepsGenuine(s: string, i: int)
    requires GenuineJavaAt(s, i)
    ensures Occurs(JAVA, StripDecoys(s))
    decreases |s|
  {
    var r := StripDecoys(s);
    if i == 0 {
      GenuineJavaAtFront(s);
    } else {
      var n := if DecoyLength(s) > 0 then DecoyLength(s) else 1;
      if DecoyLength(s) > 0 {
        NoJInsideDecoy(s);
      }
      assert s[i] == 'j' by { assert s[i..i + 4][0] == s[i]; }
      assert n <= i;
      OccursAtShift(JAVA, s, n, i - n);
      OccursAtShift(JAVASCRIPT, s, n, i - n);
      OccursAtShift(JAVA_SPACE_SCRIPT, s, n, i - n);
      OccursAtShift(JAVA_DASH_SCRIPT, s, n, i - n);
      StripKeepsGenuine(s[n..], i - n);
      var rest := StripDecoys(s[n..]);
      var k :| 0 <= k <= |rest| && OccursAt(JAVA, rest, k);
      assert r == [r[0]] + rest;
      OccursAfterPrefix(JAVA, [r[0]], rest, k);
    }
  }

  /**
   * isRelevanceJavaTemplate accepts a title exactly when its lower-cased text
   * holds a "java" that does not start "javascript", "java script" or "java-script".
   */
  lemma RelevantIffGenuineJava(name: string)
    ensures IsRelevant(name) <==> exists i | 0 <= i <= |ToLower(name)| :: GenuineJavaAt(ToLower(name), i)
  {
    var s := ToLower(name);
    if IsRelevant(name) {
      StripFindsOnlyGenuine(s);
    }
    if i :| 0 <= i <= |s| && GenuineJavaAt(s, i) {
      StripKeepsGenuine(s, i);
    }
  }

  /** An accepted title mentions "java" in some letter case. */
  lemma RelevantMentionsJava(name: string)
    requires IsRelevant(name)
    ensures Occurs(JAVA, ToLower(name))
  {
    RelevantIffGenuineJava(name);
  }

  /** A title that mentions "java" and none of the three near-miss phrases is accepted. */
  lemma JavaWithoutDecoyIsRelevant(name: string)
    requires Occurs(JAVA, ToLower(name))
    requires forall i | 0 <= i <= |ToLower(name)| :: !DecoyAt(ToLower(name), i)
    ensures IsRelevant(name)
  {
    var s := ToLower(name);
    var i :| 0 <= i <= |s| && OccursAt(JAVA, s, i);
    assert GenuineJavaAt(s, i);
    RelevantIffGenuineJava(name);
  }

  /** A title whose every "java" starts one of the near-miss phrases is rejected. */
  lemma OnlyDecoysIsNotRelevant(name: string)
    requires forall i | 0 <= i <= |ToLower(name)| :: OccursAt(JAVA, ToLower(name), i) ==> DecoyAt(ToLower(name), i)
    ensures !IsRelevant(name)
  {
    RelevantIffGenuineJava(name);
  }
}
